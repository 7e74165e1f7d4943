/** Streaming an update image into a flash partition: erase on the fly, 16-octet staging for encrypted flash. */
module OtaWrites {
  import opened Basics

  const SEC: nat := 4096
  const MAGIC: bv8 := 0xE9

  /** First octet after the last sector that a write of n octets at offset w may touch. */
  function EraseEnd(w: nat, n: nat): (e: nat)
    ensures w + n < e <= w + n + SEC && e % SEC == 0
  {
    ((w + n) / SEC + 1) * SEC
  }

  /** Both erase ranges of the code end at EraseEnd and start inside the stretch already clean. */
  lemma ErasePlan(w: nat, n: nat, clean: nat)
    requires w <= clean && clean % SEC == 0
    ensures var first, last := w / SEC, (w + n) / SEC;
      && first <= last
      && (if w % SEC == 0 then w + (last - first + 1) * SEC == EraseEnd(w, n)
          else w <= (first + 1) * SEC <= clean && (first + 1) * SEC + (last - first) * SEC == EraseEnd(w, n))
  {
  }

  /** Programming a cell can only clear bits, so an erased cell takes exactly the octet. */
  function Programmed(was: bv8, octet: bv8): (r: bv8)
    ensures was == 0xFF ==> r == octet
    ensures r & was == r && r & octet == r
  {
    was & octet
  }

  /** NOR flash: erasing sets whole sectors to ones, programming can only clear bits. */
  class Flash {
    const mem: array<bv8>
    const encrypted: bool
    /** Cells erased during this update and not programmed since. */
    ghost var clean: seq<bool>
    /** Cells programmed during this update. */
    ghost var used: seq<bool>
    /** A cell was programmed without being clean, or a programmed cell was erased. */
    ghost var spoiled: bool

    ghost predicate Valid()
      reads this
    {
      |clean| == |used| == mem.Length && mem.Length % SEC == 0
    }

    constructor (size: nat, encrypted: bool)
      requires size % SEC == 0
      ensures Valid() && fresh(mem) && mem.Length == size && this.encrypted == encrypted
      ensures !spoiled && clean == seq(size, _ => false) && used == seq(size, _ => false)
    {
      mem := new bv8[size](_ => 0);
      this.encrypted := encrypted;
      clean, used, spoiled := seq(size, _ => false), seq(size, _ => false), false;
    }

    method Erase(off: nat, n: nat) returns (ok: bool)
      requires Valid()
      modifies this, mem
      ensures Valid()
      ensures ok <==> off + n <= mem.Length && off % SEC == 0 && n % SEC == 0
      ensures !ok ==> unchanged(this) && unchanged(mem)
      ensures ok ==>
        && used == old(used)
        && (forall i :: 0 <= i < mem.Length ==> clean[i] == (off <= i < off + n || old(clean)[i]))
        && (forall i :: 0 <= i < mem.Length ==> mem[i] == if off <= i < off + n then 0xFF else old(mem[i]))
        && (spoiled <==> old(spoiled) || exists i :: off <= i < off + n && used[i])
    {
      if off + n > mem.Length || off % SEC != 0 || n % SEC != 0 {
        return false;
      }
      forall i | off <= i < off + n {
        mem[i] := 0xFF;
      }
      spoiled := spoiled || exists i :: off <= i < off + n && used[i];
      clean := seq(mem.Length, i requires 0 <= i < |clean| reads this => off <= i < off + n || clean[i]);
      return true;
    }

    method Program(off: nat, data: seq<bv8>) returns (ok: bool)
      requires Valid()
      modifies this, mem
      ensures Valid()
      ensures ok <==> off + |data| <= mem.Length && (encrypted ==> off % 16 == 0 && |data| % 16 == 0)
      ensures !ok ==> unchanged(this) && unchanged(mem)
      ensures ok ==>
        && (forall i :: 0 <= i < mem.Length ==> clean[i] == (old(clean)[i] && !(off <= i < off + |data|)))
        && (forall i :: 0 <= i < mem.Length ==> used[i] == (old(used)[i] || off <= i < off + |data|))
        && (forall i :: 0 <= i < mem.Length ==>
              mem[i] == if off <= i < off + |data| then Programmed(old(mem[i]), data[i - off]) else old(mem[i]))
        && (spoiled <==> old(spoiled) || exists i :: off <= i < off + |data| && !old(clean)[i])
    {
      hide Programmed;
      if off + |data| > mem.Length || (encrypted && (off % 16 != 0 || |data| % 16 != 0)) {
        return false;
      }
      forall i | off <= i < off + |data| {
        mem[i] := Programmed(mem[i], data[i - off]);
      }
      spoiled := spoiled || exists i :: off <= i < off + |data| && !clean[i];
      clean := seq(mem.Length, i requires 0 <= i < |clean| reads this => clean[i] && !(off <= i < off + |data|));
      used := seq(mem.Length, i requires 0 <= i < |used| reads this => used[i] || off <= i < off + |data|);
      return true;
    }
  }

  datatype Result = Ok | EraseFailed | BadMagic | WriteFailed

  datatype EndResult = Done | NothingWritten | TailFailed | ValidateFailed | NotBegun | NotWritten(r: Result)

  /** Where the write position stands after n more octets: encrypted flash takes whole blocks of 16 only. */
  function Landed(encrypted: bool, w: nat, p: nat, n: nat): (w': nat) {
    if encrypted then w + 16 * ((p + n) / 16) else w + n
  }

  /** The staging buffer never carries a write past the sectors erased for it, although its octets are not counted. */
  lemma LandedWithinErased(encrypted: bool, w: nat, p: nat, n: nat)
    requires if encrypted then w % 16 == 0 && p < 16 else p == 0
    ensures Landed(encrypted, w, p, n) <= EraseEnd(w, n)
  {
    if encrypted {
      assert (EraseEnd(w, n) - w) % 16 == 0;
    }
  }

  /** A write that reaches a sector leaves the write position in that sector or beyond, staged octets or not. */
  lemma LandedInSector(encrypted: bool, w: nat, p: nat, n: nat)
    requires if encrypted then w % 16 == 0 && p < 16 else p == 0
    ensures EraseEnd(w, 0) <= EraseEnd(w, n) <= EraseEnd(Landed(encrypted, w, p, n), 0)
  {
    var w' := Landed(encrypted, w, p, n);
    if encrypted {
      SameSector(w / 16, n, w');
    }
  }

  /** Sectors are made of whole blocks: rounding down to a block stays in the sector. */
  lemma SameSector(a: nat, n: nat, w': nat)
    requires w' + 16 > 16 * a + n && w' % 16 == 0
    ensures w' / SEC >= (16 * a + n) / SEC
  {
    var x := 16 * a + n;
    var k := x / SEC;
    assert 256 * k <= x / 16 <= w' / 16;
  }

  lemma EraseFits(w: nat, n: nat, size: nat)
    requires size % SEC == 0
    ensures EraseEnd(w, n) <= size <==> w + n < size
  {
  }

  /** The write position when this much has been written. */
  function Position(encrypted: bool, total: nat): (w: nat) {
    if encrypted then total / 16 * 16 else total
  }

  /** Does a chunk of n octets after `before` octets fit? On-the-fly erasure needs room for one octet more, counted
      without what is staged. */
  predicate Fits(needErase: bool, encrypted: bool, size: nat, before: nat, n: nat) {
    if needErase then Position(encrypted, before) + n < size else Position(encrypted, before + n) <= size
  }

  /** Every chunk fits behind those before it. */
  ghost predicate AllFit(needErase: bool, encrypted: bool, size: nat, chunks: seq<seq<bv8>>) {
    forall i :: 0 <= i < |chunks| ==> ChunkFits(needErase, encrypted, size, chunks, i)
  }

  ghost predicate ChunkFits(needErase: bool, encrypted: bool, size: nat, chunks: seq<seq<bv8>>, i: nat)
    requires i < |chunks|
  {
    Fits(needErase, encrypted, size, |Concat(chunks[..i])|, |chunks[i]|)
  }

  /** Without on-the-fly erasure the chunks fit if and only if the whole image does. */
  lemma FitsAsWhole(encrypted: bool, size: nat, chunks: seq<seq<bv8>>)
    ensures AllFit(false, encrypted, size, chunks) <==> chunks == [] || Position(encrypted, |Concat(chunks)|) <= size
  {
    hide Position, Concat;
    forall i | 0 <= i < |chunks|
      ensures Position(encrypted, |Concat(chunks[..i])| + |chunks[i]|) <= Position(encrypted, |Concat(chunks)|)
    {
      NextChunk(chunks, i);
      ConcatPrefix(chunks, i + 1);
      PositionMonotone(encrypted, |Concat(chunks[..i + 1])|, |Concat(chunks)|);
    }
    if chunks != [] {
      NextChunk(chunks, |chunks| - 1);
      assert chunks[..|chunks| - 1 + 1] == chunks;
      assert AllFit(false, encrypted, size, chunks) ==> ChunkFits(false, encrypted, size, chunks, |chunks| - 1);
    }
  }

  lemma PositionMonotone(encrypted: bool, a: nat, b: nat)
    requires a <= b
    ensures Position(encrypted, a) <= Position(encrypted, b)
  {
  }

  /** The write position depends on the amount written only, not on how it was cut into chunks. */
  lemma LandedIsPosition(encrypted: bool, before: nat, n: nat)
    ensures Position(encrypted, before) <= before
    ensures Landed(encrypted, Position(encrypted, before), before - Position(encrypted, before), n)
         == Position(encrypted, before + n)
  {
    var q, r := before / 16, before % 16;
    assert before == 16 * q + r;
    assert (before + n) / 16 == q + (r + n) / 16;
  }

  predicate Headed(image: seq<bv8>) { image != [] ==> image[0] == MAGIC }

  /** What the next chunk does to the image so far. */
  lemma NextChunk(chunks: seq<seq<bv8>>, i: nat)
    requires i < |chunks|
    ensures Concat(chunks[..i + 1]) == Concat(chunks[..i]) + chunks[i]
    ensures Headed(Concat(chunks)) ==> Headed(Concat(chunks[..i + 1]))
  {
    ConcatOneMore(chunks[..i], chunks[i]);
    assert chunks[..i + 1] == chunks[..i] + [chunks[i]];
    ConcatPrefix(chunks, i + 1);
  }

  lemma FitsHere(needErase: bool, encrypted: bool, size: nat, chunks: seq<seq<bv8>>, i: nat)
    requires i < |chunks|
    ensures ChunkFits(needErase, encrypted, size, chunks, i)
       <==> Fits(needErase, encrypted, size, |Concat(chunks[..i])|, |chunks[i]|)
    ensures !ChunkFits(needErase, encrypted, size, chunks, i) ==> !AllFit(needErase, encrypted, size, chunks)
  {
  }

  /** A staging buffer that holds something either takes all of the data or is filled and programmed first. */
  lemma LandedStaged(w: nat, p: nat, n: nat)
    requires 0 < p < 16
    ensures p + n < 16 ==> Landed(true, w, p, n) == w && (p + n) % 16 == p + n
    ensures p + n >= 16 ==>
      && Landed(true, w, p, n) == Landed(true, w + 16, 0, p + n - 16) >= w + 16
      && (p + n) % 16 == (p + n - 16) % 16
  {
  }

  lemma WholeBlocks(w: nat, n: nat)
    requires w % 16 == 0 && n % 16 == 0
    ensures (w + n) % 16 == 0
  {
  }

  /** One update in progress. */
  class OtaEntry {
    const flash: Flash
    const needErase: bool
    const partial: array<bv8>
    var wroteSize: nat
    var partialBytes: nat
    /** Everything accepted so far. */
    ghost var input: seq<bv8>
    /** Cells from wroteSize up to here are clean. */
    ghost var cleanEnd: nat
    /** A staged block has been filled up and written. */
    ghost var topped: bool

    ghost const Repr: set<object> := {this, partial, flash, flash.mem}

    ghost predicate Shape()
      reads `wroteSize, `partialBytes, `cleanEnd, flash
    {
      && flash.Valid() && partial.Length == 16 && partial != flash.mem
      && partialBytes <= 16 && (if flash.encrypted then wroteSize % 16 == 0 else partialBytes == 0)
      && wroteSize <= flash.mem.Length && cleanEnd <= flash.mem.Length && cleanEnd % SEC == 0
    }

    /** Nothing was spoiled, and everything from the write position on is untouched and, up to cleanEnd, clean. */
    ghost predicate Untouched()
      reads `wroteSize, `partialBytes, `cleanEnd, flash, flash.mem
      ensures Untouched() ==> Shape() && wroteSize <= cleanEnd
    {
      && Shape() && !flash.spoiled && wroteSize <= cleanEnd
      && (forall i :: wroteSize <= i < cleanEnd ==> flash.clean[i] && flash.mem[i] == 0xFF)
      && (forall i :: wroteSize <= i < flash.mem.Length ==> !flash.used[i])
      && (forall i :: cleanEnd <= i < flash.mem.Length ==> !flash.clean[i])
    }

    /** What the free part of the staging buffer holds: zeros at first, ones once a staged block has been written. */
    ghost function Padding(): (b: bv8)
      reads `topped
    {
      if topped then 0xFF else 0
    }

    ghost predicate Padded()
      requires partial.Length == 16
      reads `partialBytes, `topped, partial
    {
      forall i :: partialBytes <= i < 16 ==> partial[i] == Padding()
    }

    /** In addition flash and staging buffer hold exactly the input. */
    ghost predicate Valid()
      reads Repr
      ensures Valid() ==> Shape() && wroteSize <= cleanEnd
    {
      Untouched() && input == flash.mem[..wroteSize] + partial[..partialBytes]
    }

    constructor (flash: Flash, needErase: bool, ghost cleanEnd: nat)
      requires flash.Valid() && !flash.spoiled && cleanEnd <= flash.mem.Length && cleanEnd % SEC == 0
      requires needErase ==> cleanEnd == 0
      requires forall i :: 0 <= i < cleanEnd ==> flash.clean[i] && flash.mem[i] == 0xFF
      requires forall i :: 0 <= i < flash.mem.Length ==> !flash.used[i] && (cleanEnd <= i ==> !flash.clean[i])
      ensures Valid() && fresh(this) && fresh(partial) && this.flash == flash && this.needErase == needErase
      ensures this.cleanEnd == cleanEnd && input == [] && wroteSize == 0 && partialBytes == 0 && Padded() && !topped
    {
      this.flash, this.needErase, this.cleanEnd, topped := flash, needErase, cleanEnd, false;
      partial := new bv8[16](_ => 0);
      wroteSize, partialBytes, input := 0, 0, [];
    }

    /** Erase sectors at or after the write position that join the clean stretch. */
    method EraseRange(off: nat, n: nat) returns (ok: bool)
      requires Valid() && needErase && wroteSize <= off <= cleanEnd && off % SEC == 0 && n % SEC == 0
      modifies this`cleanEnd, flash, flash.mem
      ensures Valid() && (ok <==> off + n <= flash.mem.Length)
      ensures !ok ==> unchanged(Repr)
      ensures ok ==> cleanEnd == if off + n > old(cleanEnd) then off + n else old(cleanEnd)
    {
      hide Sound, Padded;
      assert (off + n) % SEC == 0;
      ghost var kept := flash.mem[..wroteSize];
      ok := flash.Erase(off, n);
      if ok {
        assert !flash.spoiled;
        if off + n > cleanEnd {
          cleanEnd := off + n;
        }
        assert Untouched();
        assert flash.mem[..wroteSize] == kept;
      }
    }

    /** Erase the sectors that a write of n octets may enter and that are not erased yet. */
    method EraseAhead(n: nat) returns (ok: bool)
      requires Valid() && needErase
      modifies this`cleanEnd, flash, flash.mem
      ensures Valid()
      ensures ok <==> EraseEnd(wroteSize, n) <= flash.mem.Length
      ensures !ok ==> unchanged(Repr)
      ensures ok ==>
        cleanEnd == if EraseEnd(wroteSize, n) > old(cleanEnd) then EraseEnd(wroteSize, n) else old(cleanEnd)
    {
      hide Valid, EraseEnd;
      ErasePlan(wroteSize, n, cleanEnd);
      var first := wroteSize / SEC;
      var last := (wroteSize + n) / SEC;
      ok := true;
      if wroteSize % SEC == 0 {
        ok := EraseRange(wroteSize, (last - first + 1) * SEC);
      } else if first != last {
        ok := EraseRange((first + 1) * SEC, (last - first) * SEC);
      }
    }

    /** Either the writes stayed in the clean stretch and flash and staging buffer hold exactly the input, or they
        have left it and spoiled the flash. */
    ghost predicate Sound()
      reads Repr
      ensures Sound() ==> Shape() && |input| == wroteSize + partialBytes
      ensures Sound() && wroteSize <= cleanEnd ==> Valid()
    {
      && Shape() && |input| == wroteSize + partialBytes && Padded()
      && if wroteSize <= cleanEnd then Valid() else flash.spoiled
    }

    /** Program data at the write position and advance it; clean cells take exactly the data, others spoil flash. */
    method Advance(data: seq<bv8>) returns (ok: bool)
      requires Shape() && (flash.encrypted ==> |data| % 16 == 0)
      modifies this`wroteSize, flash, flash.mem
      ensures ok <==> old(wroteSize) + |data| <= flash.mem.Length
      ensures ok ==> Shape() && wroteSize == old(wroteSize) + |data|
      ensures ok && old(Untouched()) && wroteSize <= cleanEnd ==>
        Untouched() && flash.mem[..wroteSize] == old(flash.mem[..wroteSize]) + data
      ensures ok && wroteSize > cleanEnd && old(Untouched() || flash.spoiled) ==> flash.spoiled
    {
      hide Programmed;
      ok := flash.Program(wroteSize, data);
      if ok {
        if flash.encrypted {
          WholeBlocks(wroteSize, |data|);
        }
        wroteSize := wroteSize + |data|;
        ghost var w := old(wroteSize);
        if old(Untouched()) && wroteSize <= cleanEnd {
          forall i | 0 <= i < wroteSize
            ensures flash.mem[i] == (old(flash.mem[..wroteSize]) + data)[i]
          {
          }
          assert flash.mem[..wroteSize] == old(flash.mem[..wroteSize]) + data;
        } else if old(Untouched()) {
          assert w <= wroteSize - 1 < wroteSize && !old(flash.clean)[wroteSize - 1];
        }
      }
    }

    /** Copy data into the free part of the staging buffer. */
    method Fill(data: seq<bv8>)
      requires Sound() && flash.encrypted && partialBytes + |data| <= 16
      modifies this`partialBytes, this`input, partial
      ensures Sound() && partialBytes == old(partialBytes) + |data| && input == old(input) + data
    {
      forall i | 0 <= i < |data| {
        partial[partialBytes + i] := data[i];
      }
      assert partial[..partialBytes + |data|] == old(partial[..partialBytes]) + data;
      partialBytes := partialBytes + |data|;
      input := input + data;
    }

    /** Program the full staging buffer and empty it. */
    method FlushStaging() returns (ok: bool)
      requires Sound() && flash.encrypted && partialBytes == 16
      modifies Repr
      ensures ok <==> old(wroteSize) + 16 <= flash.mem.Length
      ensures ok ==>
        && Sound() && input == old(input) && partialBytes == 0 && topped
        && wroteSize == old(wroteSize) + 16 && cleanEnd == old(cleanEnd)
    {
      ok := Advance(partial[..]);
      if ok {
        partialBytes := 0;
        forall i | 0 <= i < 16 {
          partial[i] := 0xFF;
        }
        topped := true;
      }
    }

    /** The data path of a write: whole blocks go to flash, a remainder is staged. */
    method Absorb(data: seq<bv8>) returns (r: Result)
      requires Sound() && partialBytes < 16
      modifies Repr
      ensures r.Ok? || r.WriteFailed?
      ensures r.Ok? <==> Landed(flash.encrypted, old(wroteSize), old(partialBytes), |data|) <= flash.mem.Length
      ensures r.Ok? ==>
        && Sound() && input == old(input) + data && cleanEnd == old(cleanEnd)
        && wroteSize == Landed(flash.encrypted, old(wroteSize), old(partialBytes), |data|)
        && (partialBytes == if flash.encrypted then (old(partialBytes) + |data|) % 16 else 0)
        && (topped <==> old(topped) || (old(partialBytes) > 0 && old(partialBytes) + |data| >= 16))
    {
      hide Landed, Sound;
      var rest := data;
      if flash.encrypted && partialBytes != 0 {
        LandedStaged(wroteSize, partialBytes, |data|);
        var n := if 16 - partialBytes < |data| then 16 - partialBytes else |data|;
        Fill(data[..n]);
        rest := data[n..];
        if partialBytes != 16 {
          assert data[..n] == data;
          return Ok;
        }
        var ok := FlushStaging();
        if !ok {
          return WriteFailed;
        }
      }
      r := AbsorbBlocks(rest);
      assert r.Ok? ==> input == old(input) + data;
    }

    /** With an empty staging buffer: program all whole blocks and stage what remains. */
    method AbsorbBlocks(data: seq<bv8>) returns (r: Result)
      requires Sound() && partialBytes == 0
      modifies Repr
      ensures r.Ok? || r.WriteFailed?
      ensures r.Ok? <==> Landed(flash.encrypted, old(wroteSize), 0, |data|) <= flash.mem.Length
      ensures r.Ok? ==>
        && Sound() && input == old(input) + data && cleanEnd == old(cleanEnd)
        && wroteSize == Landed(flash.encrypted, old(wroteSize), 0, |data|)
        && (partialBytes == if flash.encrypted then |data| % 16 else 0) && topped == old(topped)
    {
      assert Landed(flash.encrypted, wroteSize, 0, |data|)
          == wroteSize + |data| - if flash.encrypted then |data| % 16 else 0;
      hide Landed, Untouched, Padded;
      ghost var kept := flash.mem[..wroteSize];
      var body := SaveRemainder(data);
      var ok := Advance(body);
      if !ok {
        return WriteFailed;
      }
      assert wroteSize <= cleanEnd ==> Untouched() && flash.mem[..wroteSize] == kept + body;
      assert (kept + body) + partial[..partialBytes] == kept + data;
      input := input + data;
      return Ok;
    }

    /** Stage the octets that do not make up a whole block; the rest is returned. */
    method SaveRemainder(data: seq<bv8>) returns (body: seq<bv8>)
      requires Shape() && partialBytes == 0 && Padded()
      modifies this`partialBytes, partial
      ensures Shape() && (old(Untouched()) ==> Untouched()) && Padded()
      ensures partialBytes == if flash.encrypted then |data| % 16 else 0
      ensures body + partial[..partialBytes] == data && |body| + partialBytes == |data|
      ensures flash.encrypted ==> |body| % 16 == 0
    {
      body := data;
      if flash.encrypted {
        partialBytes := |data| % 16;
        if partialBytes != 0 {
          body := data[..|data| - partialBytes];
          forall i | 0 <= i < partialBytes {
            partial[i] := data[|body| + i];
          }
          assert partial[..partialBytes] == data[|body|..];
        }
      }
    }

    /** Only the very first octet of an image is checked. */
    predicate MagicOk(data: seq<bv8>)
      reads this
    {
      wroteSize == 0 && partialBytes == 0 && |data| > 0 ==> data[0] == MAGIC
    }

    /** Nothing is erased beyond the sector of the write position. */
    ghost predicate Lean()
      reads this
    {
      needErase ==> cleanEnd <= EraseEnd(wroteSize, 0)
    }

    /** Between two writes: with on-the-fly erasure the clean stretch is never left. */
    ghost predicate Ready()
      reads Repr
      ensures Ready() ==> Sound() && Shape() && partialBytes < 16
    {
      Sound() && partialBytes < 16 && (needErase ==> wroteSize <= cleanEnd)
    }

    /** One write, in any mode. Flash and staging buffer hold the input as long as the position stays in the clean
        stretch, which on-the-fly erasure sees to; a position beyond it means that flash is spoiled. */
    method Write(data: seq<bv8>) returns (r: Result)
      requires Ready()
      modifies Repr
      ensures needErase ==> (r.Ok? <==> old(wroteSize) + |data| < flash.mem.Length && old(MagicOk(data)))
      ensures !needErase ==>
        (r.Ok? <==> Landed(flash.encrypted, old(wroteSize), old(partialBytes), |data|) <= flash.mem.Length
                    && old(MagicOk(data)))
      ensures r.EraseFailed? ==> unchanged(Repr)
      ensures r.BadMagic? ==> Ready() && input == old(input) && wroteSize == partialBytes == 0
      ensures r.Ok? ==>
        && Ready() && input == old(input) + data
        && (flash.spoiled <==> wroteSize > cleanEnd)
        && (needErase ==> !flash.spoiled)
        && (!flash.spoiled ==> input == flash.mem[..wroteSize] + partial[..partialBytes])
        && partialBytes == (if flash.encrypted then (old(partialBytes) + |data|) % 16 else 0)
        && (topped <==> old(topped) || (old(partialBytes) > 0 && old(partialBytes) + |data| >= 16))
        && wroteSize == Landed(flash.encrypted, old(wroteSize), old(partialBytes), |data|)
        && cleanEnd == (if needErase && EraseEnd(old(wroteSize), |data|) > old(cleanEnd)
                        then EraseEnd(old(wroteSize), |data|) else old(cleanEnd))
        && (old(Lean()) ==> Lean() && (needErase ==> cleanEnd == EraseEnd(old(wroteSize), |data|)))
    {
      hide Valid, Untouched, Padded, EraseEnd, Landed;
      EraseFits(wroteSize, |data|, flash.mem.Length);
      LandedInSector(flash.encrypted, wroteSize, partialBytes, |data|);
      LandedWithinErased(flash.encrypted, wroteSize, partialBytes, |data|);
      if needErase {
        var ok := EraseAhead(|data|);
        if !ok {
          return EraseFailed;
        }
      }
      if wroteSize == 0 && partialBytes == 0 && |data| > 0 && data[0] != MAGIC {
        return BadMagic;
      }
      r := Absorb(data);
      if r.Ok? {
        Whereabouts();
      }
    }

    /** The sectors erased last are those of the last write. */
    ghost predicate ErasedFor(last: nat)
      reads this
    {
      last <= |input| && cleanEnd == EraseEnd(Position(true, |input| - last), last)
    }

    /** Any sequence of writes, in any mode: it succeeds exactly when every chunk fits and the image starts with the
        magic octet. Flash and staging buffer then hold exactly the concatenated data, unless the position has left the
        clean stretch, and then flash is spoiled. */
    method WriteAll(chunks: seq<seq<bv8>>) returns (r: Result)
      requires Ready() && Lean() && input == []
      modifies Repr
      ensures r.Ok? <==> AllFit(needErase, flash.encrypted, flash.mem.Length, chunks) && Headed(Concat(chunks))
      ensures r.Ok? ==>
        && Ready() && input == Concat(chunks) && wroteSize == Position(flash.encrypted, |Concat(chunks)|)
        && (flash.spoiled <==> wroteSize > cleanEnd) && (needErase ==> !flash.spoiled)
        && (!flash.spoiled ==> flash.mem[..wroteSize] + partial[..partialBytes] == Concat(chunks))
        && (needErase && flash.encrypted && chunks != [] ==> ErasedFor(|chunks[|chunks| - 1]|))
        && (!needErase ==> cleanEnd == old(cleanEnd))
    {
      hide *;
      r := Ok;
      Started(chunks);
      for i := 0 to |chunks|
        invariant InProgress() && input == Concat(chunks[..i])
        invariant needErase && flash.encrypted && i > 0 ==> ErasedFor(|chunks[i - 1]|)
        invariant !needErase ==> cleanEnd == old(cleanEnd)
        invariant forall j :: 0 <= j < i ==> ChunkFits(needErase, flash.encrypted, flash.mem.Length, chunks, j)
      {
        NextChunk(chunks, i);
        FitsHere(needErase, flash.encrypted, flash.mem.Length, chunks, i);
        r := WriteNext(chunks[i]);
        if !r.Ok? {
          return;
        }
      }
      AllWritten(chunks);
      return Ok;
    }

    /** Between two writes of an image. */
    ghost predicate InProgress()
      reads Repr
      ensures InProgress() ==> Ready() && Headed(input)
    {
      Ready() && Lean() && Headed(input)
    }

    /** One write, seen from the image. */
    method WriteNext(data: seq<bv8>) returns (r: Result)
      requires InProgress()
      modifies Repr
      ensures r.Ok? <==>
        Fits(needErase, flash.encrypted, flash.mem.Length, |old(input)|, |data|) && Headed(old(input) + data)
      ensures r.Ok? ==> InProgress() && input == old(input) + data
      ensures r.Ok? && needErase && flash.encrypted ==> ErasedFor(|data|)
      ensures r.Ok? && !needErase ==> cleanEnd == old(cleanEnd)
    {
      hide Valid, Sound, EraseEnd, Landed, Position;
      Whereabouts();
      LandedIsPosition(flash.encrypted, |input|, |data|);
      assert input == [] ==> input + data == data;
      assert Headed(input + data) <==> MagicOk(data);
      r := Write(data);
    }

    lemma Started(chunks: seq<seq<bv8>>)
      requires Ready() && Lean() && input == []
      ensures InProgress() && input == Concat(chunks[..0])
    {
    }

    lemma AllWritten(chunks: seq<seq<bv8>>)
      requires InProgress() && input == Concat(chunks[..|chunks|])
      requires forall j :: 0 <= j < |chunks| ==> ChunkFits(needErase, flash.encrypted, flash.mem.Length, chunks, j)
      ensures AllFit(needErase, flash.encrypted, flash.mem.Length, chunks) && Headed(Concat(chunks))
      ensures Ready() && input == Concat(chunks) && wroteSize == Position(flash.encrypted, |input|)
      ensures (flash.spoiled <==> wroteSize > cleanEnd) && (needErase ==> !flash.spoiled)
      ensures !flash.spoiled ==> flash.mem[..wroteSize] + partial[..partialBytes] == Concat(chunks)
    {
      assert chunks[..|chunks|] == chunks;
      hide Position, Sound;
      Whereabouts();
    }

    /** What the invariant says about lengths and contents; on encrypted flash the position is a whole block. */
    lemma Whereabouts()
      requires Sound() && partialBytes < 16
      ensures |input| == wroteSize + partialBytes && wroteSize == Position(flash.encrypted, |input|)
      ensures partialBytes == if flash.encrypted then |input| % 16 else 0
      ensures flash.spoiled <==> wroteSize > cleanEnd
      ensures !flash.spoiled ==> input == flash.mem[..wroteSize] + partial[..partialBytes]
    {
    }

    /** The last write of an update, which erases nothing: it leaves flash spoiled exactly when it ends beyond the clean
        stretch. */
    method WriteTail() returns (ok: bool)
      requires Ready() && partialBytes > 0
      modifies Repr
      ensures ok <==> old(wroteSize) + 16 <= flash.mem.Length
      ensures ok ==> (flash.spoiled <==> old(wroteSize) + 16 > old(cleanEnd))
      ensures ok && !flash.spoiled ==> |old(input)| <= flash.mem.Length && flash.mem[..|old(input)|] == old(input)
      ensures ok && !flash.spoiled ==>
        forall i :: |old(input)| <= i < old(wroteSize) + 16 ==> flash.mem[i] == old(Padding())
    {
      hide Programmed;
      ghost var kept, staged, w := flash.mem[..wroteSize], partial[..partialBytes], wroteSize;
      ok := flash.Program(wroteSize, partial[..]);
      if ok {
        if w + 16 <= cleanEnd {
          assert flash.mem[..w] == kept;
          assert flash.mem[w..w + |staged|] == staged;
          assert flash.mem[..w + |staged|] == kept + staged;
          assert forall i :: w <= i < w + 16 ==> flash.mem[i] == old(partial[i - w]);
        } else if w <= cleanEnd {
          assert !old(flash.clean)[w + 15];
        }
        wroteSize := wroteSize + 16;
        partialBytes := 0;
      }
    }

    /** End an update: write what is staged, then have the image verified. */
    method End(verified: bool) returns (r: EndResult)
      requires Ready()
      modifies Repr
      ensures r == if old(wroteSize) == 0 then NothingWritten
                   else if old(partialBytes) > 0 && old(wroteSize) + 16 > flash.mem.Length then TailFailed
                   else if verified then Done else ValidateFailed
      ensures r.Done? ==>
        (flash.spoiled <==> old(wroteSize) + (if old(partialBytes) > 0 then 16 else 0) > old(cleanEnd))
      ensures r.Done? && !flash.spoiled ==> |old(input)| <= flash.mem.Length && flash.mem[..|old(input)|] == old(input)
      ensures r.Done? && !flash.spoiled && old(partialBytes) > 0 ==>
        forall i :: |old(input)| <= i < old(wroteSize) + 16 ==> flash.mem[i] == old(Padding())
    {
      hide Sound;
      Whereabouts();
      if wroteSize == 0 {
        return NothingWritten;
      }
      if partialBytes > 0 {
        var ok := WriteTail();
        if !ok {
          return TailFailed;
        }
      } else {
        assert wroteSize <= cleanEnd ==> Valid();
        assert !flash.spoiled ==> input == flash.mem[..wroteSize];
      }
      return if verified then Done else ValidateFailed;
    }
  }

  /** An image of this length, whose last chunk is this long, ends with a tail write into a sector never erased. */
  predicate TailUncovered(total: nat, last: nat) {
    last <= total && 0 < total % SEC < 16 && (total - last) % 16 > total % 16
  }

  /** The chunks make up an image that the writes and the tail write can place in a partition of this size. */
  ghost predicate Accepted(mode: ImageSize, encrypted: bool, size: nat, chunks: seq<seq<bv8>>)
    requires size % SEC == 0
  {
    var total := |Concat(chunks)|;
    && (mode.Known? ==> mode.size <= size)
    && chunks != [] && AllFit(mode.Sequential?, encrypted, size, chunks) && Headed(Concat(chunks))
    && Position(encrypted, total) > 0 && (encrypted && total % 16 != 0 ==> Position(encrypted, total) + 16 <= size)
  }

  /** The lengths for which some octet is programmed into a cell that was not erased for it. */
  ghost predicate Spoils(mode: ImageSize, encrypted: bool, size: nat, chunks: seq<seq<bv8>>)
    requires chunks != [] && size % SEC == 0
  {
    var total := |Concat(chunks)|;
    if mode.Sequential? then encrypted && TailUncovered(total, |chunks[|chunks| - 1]|)
    else total > Stretch(mode, size)
  }

  /** Without on-the-fly erasure an accepted image fits the partition. */
  lemma FitsWhole(mode: ImageSize, encrypted: bool, size: nat, chunks: seq<seq<bv8>>)
    requires size % SEC == 0 && chunks != []
    ensures Accepted(mode, encrypted, size, chunks) && !mode.Sequential? ==> |Concat(chunks)| <= size
  {
    FitsAsWhole(encrypted, size, chunks);
    hide AllFit, Headed, Concat;
  }

  lemma EmptyConcat(chunks: seq<seq<bv8>>)
    requires chunks == []
    ensures Concat(chunks) == []
  {
  }

  lemma NothingToWrite(encrypted: bool)
    ensures Position(encrypted, 0) == 0
  {
  }

  /** A whole update, from begin to end and in each of the three modes: it succeeds exactly on acceptable images, and
      then it leaves the image in flash and programs clean cells only, exactly unless the lengths spoil it. */
  method Update(flash: Flash, mode: ImageSize, chunks: seq<seq<bv8>>, verified: bool) returns (r: EndResult)
    requires flash.Valid() && !flash.spoiled
    requires forall i :: 0 <= i < flash.mem.Length ==> !flash.used[i] && !flash.clean[i]
    modifies flash, flash.mem
    ensures r.Done? <==> Accepted(mode, flash.encrypted, flash.mem.Length, chunks) && verified
    ensures r.Done? ==> (flash.spoiled <==> Spoils(mode, flash.encrypted, flash.mem.Length, chunks))
    ensures r.Done? && !flash.spoiled ==>
      |Concat(chunks)| <= flash.mem.Length && flash.mem[..|Concat(chunks)|] == Concat(chunks)
    ensures r.Done? && mode.KeepsTo(|Concat(chunks)|) ==> !flash.spoiled
    ensures r.Done? && mode.Known? && mode.size > 0 ==>
      forall e: nat :: Sectors(e, mode.size) ==> (flash.spoiled <==> |Concat(chunks)| > e)
  {
    hide EraseEnd, Landed, AllFit, TailUncovered, Position, Headed, Concat, OtaEntry.Sound;
    if chunks == [] {
      EmptyConcat(chunks);
      NothingToWrite(flash.encrypted);
    }
    StretchIs(mode, flash.mem.Length);
    if chunks != [] {
      FitsWhole(mode, flash.encrypted, flash.mem.Length, chunks);
    }
    hide Stretch;
    var entry := Begin(flash, mode);
    if entry == null {
      return NotBegun;
    }
    var w := entry.WriteAll(chunks);
    if !w.Ok? {
      return NotWritten(w);
    }
    entry.Whereabouts();
    if chunks != [] {
      FinalPosition(mode, flash.encrypted, |entry.input|, |chunks[|chunks| - 1]|, entry.cleanEnd);
    }
    r := entry.End(verified);
  }

  /** The last octet programmed lies beyond the clean stretch exactly when the lengths say so. */
  lemma FinalPosition(mode: ImageSize, encrypted: bool, total: nat, last: nat, cleanEnd: nat)
    requires cleanEnd % SEC == 0
    requires mode.Sequential? ==> Position(encrypted, total) <= cleanEnd
    requires mode.Sequential? && encrypted ==>
      last <= total && cleanEnd == EraseEnd(Position(true, total - last), last)
    ensures var end := Position(encrypted, total) + if encrypted && total % 16 != 0 then 16 else 0;
      end > cleanEnd <==> if mode.Sequential? then encrypted && TailUncovered(total, last) else total > cleanEnd
  {
    if encrypted {
      BlockStartsSector(total);
      if Position(true, total) <= cleanEnd {
        BlocksApart(Position(true, total), cleanEnd);
      }
      if mode.Sequential? && total % 16 != 0 {
        UncoveredExactly(total, last);
      }
      assert total % 16 == 0 ==> !TailUncovered(total, last) by {
        assert total % SEC < 16 ==> total % SEC == total % 16;
      }
      assert Position(true, total) <= total < Position(true, total) + 16;
      assert total % 16 == 0 ==> Position(true, total) == total;
      hide EraseEnd, TailUncovered, Position;
    }
  }

  /** The tail write starts where nothing is erased exactly when the lengths say so. */
  lemma UncoveredExactly(total: nat, last: nat)
    requires last <= total && total % 16 != 0
    ensures Position(true, total) == EraseEnd(Position(true, total - last), last) <==> TailUncovered(total, last)
  {
    var a, p := (total - last) / 16, (total - last) % 16;
    var w := Position(true, total - last);
    assert w == 16 * a && w % 16 == 0;
    hide EraseEnd, Landed, Position;
    Restaged(a, p, last, total);
    BlockStartsSector(total);
    TailCovered(w, p, last);
    LandedWithinErased(true, w, p, last);
    BlocksApart(Position(true, total), EraseEnd(w, last));
  }

  lemma BlocksApart(w: nat, e: nat)
    requires w % 16 == 0 && e % SEC == 0 && w <= e
    ensures w == e <==> !(w + 16 <= e)
  {
    var a, k := w / 16, e / SEC;
    assert w == 16 * a && e == 16 * (256 * k);
    assert w < e ==> a + 1 <= 256 * k;
  }

  lemma Restaged(a: nat, p: nat, last: nat, total: nat)
    requires total == 16 * a + p + last && p < 16
    ensures Landed(true, 16 * a, p, last) == Position(true, total) && (p + last) % 16 == total % 16
    ensures 16 * a + last < Position(true, total) <==> p > total % 16
  {
  }

  lemma BlockStartsSector(total: nat)
    ensures Position(true, total) % 16 == 0 && (Position(true, total) % SEC == 0 <==> total % SEC < 16)
    ensures total % SEC < 16 ==> total % SEC == total % 16
  {
    var k, r := total / SEC, total % SEC;
    assert total / 16 == 256 * k + r / 16 && total / 16 * 16 == SEC * k + r / 16 * 16;
  }

  /** When a write leaves something staged, its own erase covers the tail write unless the position lands on a sector
      boundary that the data alone, counted from the old position, did not reach. */
  lemma TailCovered(w: nat, p: nat, n: nat)
    requires w % 16 == 0 && p < 16 && (p + n) % 16 != 0
    ensures var w' := Landed(true, w, p, n);
      w' + 16 <= EraseEnd(w, n) <==> !(w' % SEC == 0 && w + n < w')
  {
    LandedWithinErased(true, w, p, n);
    var w', e := Landed(true, w, p, n), EraseEnd(w, n);
    SectorsAreBlocks(e / SEC, w / 16, (p + n) / 16);
    NextBoundary(w + n, w');
  }

  lemma SectorsAreBlocks(k: nat, a: nat, q: nat)
    ensures (k * SEC - (16 * a + 16 * q)) % 16 == 0
  {
    assert k * SEC - (16 * a + 16 * q) == 16 * (256 * k - a - q);
  }

  /** No sector boundary lies between x and the end of the sector that holds x. */
  lemma NextBoundary(x: nat, b: nat)
    ensures b % SEC == 0 && x < b ==> (x / SEC + 1) * SEC <= b
  {
    if b % SEC == 0 && x < b {
      assert x / SEC < b / SEC;
    }
  }

  /** An encrypted sequential update of 4095 and 10 octets ends with a tail write into a sector never erased. */
  method TailCanSpoil(first: seq<bv8>, second: seq<bv8>) returns (flash: Flash)
    requires |first| == 4095 && first[0] == MAGIC && |second| == 10
    ensures fresh(flash) && flash.spoiled
  {
    assert Landed(true, 0, 0, 4095) == 4080 && EraseEnd(0, 4095) == 4096 && 4095 % 16 == 15;
    assert Landed(true, 4080, 15, 10) == 4096 && EraseEnd(4080, 10) == 4096 && 25 % 16 == 9;
    hide Landed, EraseEnd, OtaEntry.Sound;
    flash := new Flash(3 * SEC, true);
    var entry := Begin(flash, Sequential);
    var r := entry.Write(first);
    r := entry.Write(second);
    var ok := entry.WriteTail();
  }

  /** An image of two sectors announced as 100 octets is accepted and spoils flash. */
  lemma OverrunIsAccepted(image: seq<bv8>, encrypted: bool)
    requires |image| == 2 * SEC && image[0] == MAGIC
    ensures Accepted(Known(100), encrypted, 3 * SEC, [image]) && Spoils(Known(100), encrypted, 3 * SEC, [image])
  {
    ConcatOneMore([], image);
    assert [] + [image] == [image] && [] + image == image;
    FitsAsWhole(encrypted, 3 * SEC, [image]);
  }

  /** How esp_ota_begin is told the image size; 0 counts as unknown. */
  datatype ImageSize = Sequential | Unknown | Known(size: nat) {
    /** Everything is erased at the start that an image of this length needs, by what was announced. */
    predicate KeepsTo(total: nat) { Unknown? || (Known? && (size == 0 || total <= size)) }
  }

  /** e is the least whole number of sectors that holds n octets. */
  predicate Sectors(e: nat, n: nat) { e % SEC == 0 && n <= e < n + SEC }

  /** How much of a partition is erased before the first write. */
  function Stretch(mode: ImageSize, size: nat): (e: nat)
    requires size % SEC == 0
    ensures e % SEC == 0
  {
    match mode
    case Sequential => 0
    case Unknown => size
    case Known(n) => if n == 0 then size else (n + SEC - 1) / SEC * SEC
  }

  lemma StretchIs(mode: ImageSize, size: nat)
    requires size % SEC == 0
    ensures mode.Known? && mode.size > 0 ==>
      Sectors(Stretch(mode, size), mode.size) && forall e: nat :: Sectors(e, mode.size) ==> e == Stretch(mode, size)
    ensures Stretch(mode, size) <= size <==> !mode.Known? || mode.size <= size
    ensures mode == Unknown || mode == Known(0) ==> Stretch(mode, size) == size
  {
    if mode.Known? && mode.size > 0 {
      var e := Stretch(mode, size);
      WholeSectors(mode.size, e, size);
      forall e': nat | Sectors(e', mode.size)
        ensures e' == e
      {
        WholeSectors(mode.size, e, e');
        WholeSectors(mode.size, e', e);
      }
    }
  }

  /** A whole number of sectors that holds n octets holds the least one that does. */
  lemma WholeSectors(n: nat, e: nat, m: nat)
    requires Sectors(e, n) && m % SEC == 0
    ensures n <= m <==> e <= m
  {
    var a, b := e / SEC, m / SEC;
    assert e == a * SEC && m == b * SEC;
  }

  /** Start an update: erase everything, the least whole number of sectors that holds the announced size, or nothing
      yet. It fails exactly if the announced size does not fit. */
  method Begin(flash: Flash, mode: ImageSize) returns (entry: OtaEntry?)
    requires flash.Valid() && !flash.spoiled
    requires forall i :: 0 <= i < flash.mem.Length ==> !flash.used[i] && !flash.clean[i]
    modifies flash, flash.mem
    ensures entry == null <==> mode.Known? && mode.size > flash.mem.Length
    ensures entry != null ==>
      && fresh(entry) && fresh(entry.partial) && entry.flash == flash && entry.Ready() && entry.Lean()
      && entry.input == [] && entry.wroteSize == entry.partialBytes == 0 && entry.needErase == mode.Sequential?
      && entry.cleanEnd == Stretch(mode, flash.mem.Length)
    ensures entry != null ==>
      && (mode.Sequential? ==> entry.cleanEnd == 0)
      && (mode == Unknown || mode == Known(0) ==> entry.cleanEnd == flash.mem.Length)
      && (mode.Known? && mode.size > 0 ==> Sectors(entry.cleanEnd, mode.size))
      && (forall i :: 0 <= i < flash.mem.Length ==> (flash.clean[i] <==> i < entry.cleanEnd))
      && (forall i :: 0 <= i < entry.cleanEnd ==> flash.mem[i] == 0xFF)
  {
    StretchIs(mode, flash.mem.Length);
    var end := 0;
    if !mode.Sequential? {
      end := if mode.Unknown? || mode.size == 0 then flash.mem.Length else (mode.size + SEC - 1) / SEC * SEC;
      var ok := flash.Erase(0, end);
      if !ok {
        return null;
      }
    }
    entry := new OtaEntry(flash, mode.Sequential?, end);
  }
}
