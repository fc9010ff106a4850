/** The block-chunked overwrite pass of the shredder and its read-back check.

    A file is a fixed-length byte array reached through a FileStream, which
    records (as ghost state) every positioned write made through it.  The
    random generator is an oracle: random(d, j) is byte j of the d-th buffer
    the generator fills during one pass. */
module Overwrite {

  import opened Wrappers

  type Byte = bv8

  /** random(d, j) is byte j of the d-th buffer filled by the generator in one pass. */
  type RandomOracle = (nat, nat) -> Byte

  /** The eight fixed patterns of secure mode, in the order they are written. */
  const Patterns: seq<Byte> := [0x00, 0xFF, 0xAA, 0x55, 0x3D, 0xC2, 0x8E, 0x4E]

  function Min(a: nat, b: nat): (m: nat)
    ensures m <= a && m <= b && (m == a || m == b)
  {
    if a <= b then a else b
  }

  // ---------------------------------------------------------------------------
  // The plan of one pass

  /** What one write puts into a block: a repeated byte or a freshly drawn buffer. */
  datatype Fill = Constant(value: Byte) | Noise(draw: nat)

  /** Byte j of the buffer that holds fill f. */
  function ByteOf(f: Fill, j: nat, random: RandomOracle): Byte
  {
    match f
    case Constant(b) => b
    case Noise(d) => random(d, j)
  }

  /** The first n bytes of the buffer that holds fill f. */
  function Bytes(f: Fill, n: nat, random: RandomOracle): (r: seq<Byte>)
    ensures |r| == n
    ensures forall j :: 0 <= j < n ==> r[j] == ByteOf(f, j, random)
  {
    if n == 0 then [] else Bytes(f, n - 1, random) + [ByteOf(f, n - 1, random)]
  }

  /** Buffers the generator fills per block: one in plain mode, five in secure mode. */
  function DrawsPerBlock(secure: bool): nat
  {
    if secure then 5 else 1
  }

  /** The fills of one iteration of the nested `pass` loop: pattern number `pass`, then,
      when pass is odd, random buffer number `draw`. */
  function StepFills(pass: nat, draw: nat): seq<Fill>
    requires pass < |Patterns|
  {
    if pass % 2 == 1 then [Constant(Patterns[pass]), Noise(draw)] else [Constant(Patterns[pass])]
  }

  /** The fills of the first `count` iterations of the nested `pass` loop, when d buffers
      were drawn before it: odd-indexed pattern p is followed by buffer d + p / 2. */
  function PatternFills(count: nat, d: nat): seq<Fill>
    requires count <= |Patterns|
  {
    if count == 0 then [] else PatternFills(count - 1, d) + StepFills(count - 1, d + (count - 1) / 2)
  }

  /** Everything written to one block, in order, when d buffers were drawn before it. */
  function BlockPlan(secure: bool, d: nat): seq<Fill>
  {
    if secure then PatternFills(|Patterns|, d) + [Constant(0x00), Constant(0xFF), Noise(d + 4)]
    else [Noise(d)]
  }

  /** The secure schedule of one block: 15 writes, eight patterns with a random
      refresh after each odd-indexed one, then 0x00, 0xFF and a last random buffer.
      Plain mode writes a single random buffer. */
  lemma SecureBlockPlan(d: nat)
    ensures BlockPlan(true, d) ==
      [Constant(0x00), Constant(0xFF), Noise(d)] + [Constant(0xAA), Constant(0x55), Noise(d + 1)] +
      [Constant(0x3D), Constant(0xC2), Noise(d + 2)] + [Constant(0x8E), Constant(0x4E), Noise(d + 3)] +
      [Constant(0x00), Constant(0xFF), Noise(d + 4)]
    ensures BlockPlan(false, d) == [Noise(d)]
  {
    AllPatternFills(d);
  }

  /** The whole nested `pass` loop: the eight patterns, random buffers d to d + 3 after
      the odd-indexed ones. */
  lemma AllPatternFills(d: nat)
    ensures PatternFills(|Patterns|, d) ==
      [Constant(0x00), Constant(0xFF), Noise(d)] + [Constant(0xAA), Constant(0x55), Noise(d + 1)] +
      [Constant(0x3D), Constant(0xC2), Noise(d + 2)] + [Constant(0x8E), Constant(0x4E), Noise(d + 3)]
  {
    var p2 := [Constant(0x00), Constant(0xFF), Noise(d)];
    var p4 := p2 + [Constant(0xAA), Constant(0x55), Noise(d + 1)];
    var p6 := p4 + [Constant(0x3D), Constant(0xC2), Noise(d + 2)];
    assert PatternFills(2, d) == p2 by {
      PatternFillsPair(1, d, [], Constant(0x00), Constant(0xFF));
      assert [] + p2 == p2;
    }
    assert PatternFills(4, d) == p4 by {
      PatternFillsPair(3, d, p2, Constant(0xAA), Constant(0x55));
    }
    assert PatternFills(6, d) == p6 by {
      PatternFillsPair(5, d, p4, Constant(0x3D), Constant(0xC2));
    }
    PatternFillsPair(7, d, p6, Constant(0x8E), Constant(0x4E));
  }

  /** Two iterations of the pattern loop, an even-indexed pattern and the odd-indexed
      one after it with its random buffer. */
  lemma PatternFillsPair(odd: nat, d: nat, before: seq<Fill>, even: Fill, oddFill: Fill)
    requires odd < |Patterns| && odd % 2 == 1
    requires PatternFills(odd - 1, d) == before
    requires even == Constant(Patterns[odd - 1]) && oddFill == Constant(Patterns[odd])
    ensures PatternFills(odd + 1, d) == before + [even, oddFill, Noise(d + odd / 2)]
  {
    assert PatternFills(odd, d) == before + [even];
    assert (odd - 1) / 2 == odd / 2;
  }

  /** The last fill of every block plan is the block's last random buffer. */
  lemma BlockPlanLast(secure: bool, d: nat)
    ensures BlockPlan(secure, d) != []
    ensures BlockPlan(secure, d)[|BlockPlan(secure, d)| - 1] == Noise(d + DrawsPerBlock(secure) - 1)
  {
    if secure {
      var plan := BlockPlan(secure, d);
      assert plan[|plan| - 1] == Noise(d + 4);
    }
  }

  // ---------------------------------------------------------------------------
  // Blocks, writes and their effect

  /** A block of the offset loop: it starts at `offset` and `len` bytes are written there. */
  datatype Extent = Extent(offset: nat, len: nat)

  /** The blocks the offset loop visits from `offset` on: offsets step by bs and each
      block holds min(bs, size - offset) bytes. */
  function Extents(size: nat, bs: nat, offset: nat): seq<Extent>
    requires bs > 0
    decreases size - offset
  {
    if offset >= size then []
    else [Extent(offset, Min(bs, size - offset))] + Extents(size, bs, offset + bs)
  }

  /** The blocks tile [offset, size): the i-th starts at offset + i * bs, holds between 1
      and bs bytes, ends where the next one starts, and the last one ends at size. */
  lemma {:induction false} ExtentsTile(size: nat, bs: nat, offset: nat)
    requires bs > 0
    ensures var es := Extents(size, bs, offset);
      (es == [] <==> offset >= size) &&
      (forall i :: 0 <= i < |es| ==>
         es[i].offset == offset + i * bs && 0 < es[i].len <= bs && es[i].offset + es[i].len <= size) &&
      (forall i :: 0 <= i < |es| - 1 ==> es[i].offset + es[i].len == es[i + 1].offset) &&
      (es != [] ==> es[|es| - 1].offset + es[|es| - 1].len == size)
    decreases size - offset
  {
    if offset < size {
      var es := Extents(size, bs, offset);
      var rest := Extents(size, bs, offset + bs);
      ExtentsTile(size, bs, offset + bs);
      assert es == [Extent(offset, Min(bs, size - offset))] + rest;
      forall i | 0 < i < |es|
        ensures es[i].offset == offset + i * bs
      {
        assert es[i] == rest[i - 1];
        assert (i - 1) * bs + bs == i * bs;
      }
      if rest != [] {
        assert rest[0].offset == offset + bs;
        assert es[0].len == bs;
      }
    }
  }

  /** The first block from offset on, then the blocks after it. */
  lemma ExtentsUnfold(size: nat, bs: nat, offset: nat, next: nat)
    requires bs > 0 && offset < size && next == offset + bs
    ensures Extents(size, bs, offset) == [Extent(offset, Min(bs, size - offset))] + Extents(size, bs, next)
    ensures Min(next, size) == offset + Min(bs, size - offset)
  {
  }

  /** The content c with the bytes x written over it starting at offset. */
  function Splice(c: seq<Byte>, offset: nat, x: seq<Byte>): (r: seq<Byte>)
    requires offset + |x| <= |c|
    ensures |r| == |c|
  {
    c[..offset] + x + c[offset + |x|..]
  }

  /** Two writes of the same length at the same offset: only the second one shows. */
  lemma SpliceTwice(c: seq<Byte>, offset: nat, x: seq<Byte>, y: seq<Byte>)
    requires |x| == |y| && offset + |x| <= |c|
    ensures Splice(Splice(c, offset, x), offset, y) == Splice(c, offset, y)
  {
  }

  /** One positioned write: len bytes of the buffer holding `fill`, at offset. */
  datatype Write = Write(offset: nat, len: nat, fill: Fill)

  /** The content after write w is applied to content c. */
  function Apply(c: seq<Byte>, w: Write, random: RandomOracle): (r: seq<Byte>)
    requires w.offset + w.len <= |c|
    ensures |r| == |c|
  {
    Splice(c, w.offset, Bytes(w.fill, w.len, random))
  }

  predicate InBounds(ws: seq<Write>, size: nat)
  {
    forall k :: 0 <= k < |ws| ==> ws[k].offset + ws[k].len <= size
  }

  /** The content after the writes ws are applied, in order, to c. */
  function ApplyAll(c: seq<Byte>, ws: seq<Write>, random: RandomOracle): (r: seq<Byte>)
    requires InBounds(ws, |c|)
    ensures |r| == |c|
    decreases |ws|
  {
    if ws == [] then c else ApplyAll(Apply(c, ws[0], random), ws[1..], random)
  }

  lemma {:induction false} ApplyAllAppend(c: seq<Byte>, a: seq<Write>, b: seq<Write>, random: RandomOracle)
    requires InBounds(a, |c|) && InBounds(b, |c|)
    ensures InBounds(a + b, |c|)
    ensures ApplyAll(c, a + b, random) == ApplyAll(ApplyAll(c, a, random), b, random)
    decreases |a|
  {
    if a != [] {
      assert (a + b)[0] == a[0];
      assert (a + b)[1..] == a[1..] + b;
      ApplyAllAppend(Apply(c, a[0], random), a[1..], b, random);
    } else {
      assert a + b == b;
    }
  }

  /** The writes that put the fills of a plan, one after the other, into one block. */
  function PlanWrites(e: Extent, plan: seq<Fill>): (ws: seq<Write>)
    ensures |ws| == |plan|
  {
    if plan == [] then []
    else [Write(e.offset, e.len, plan[0])] + PlanWrites(e, plan[1..])
  }

  /** The k-th write of a plan puts the plan's k-th fill into the block. */
  lemma {:induction false} PlanWritesAt(e: Extent, plan: seq<Fill>, k: nat)
    requires k < |plan|
    ensures PlanWrites(e, plan)[k] == Write(e.offset, e.len, plan[k])
    decreases k
  {
    if k > 0 {
      PlanWritesAt(e, plan[1..], k - 1);
    }
  }

  lemma {:induction false} PlanWritesAppend(e: Extent, a: seq<Fill>, b: seq<Fill>)
    ensures PlanWrites(e, a + b) == PlanWrites(e, a) + PlanWrites(e, b)
  {
    assert |PlanWrites(e, a + b)| == |PlanWrites(e, a) + PlanWrites(e, b)|;
    forall k | 0 <= k < |a + b|
      ensures PlanWrites(e, a + b)[k] == (PlanWrites(e, a) + PlanWrites(e, b))[k]
    {
      PlanWritesAt(e, a + b, k);
      if k < |a| {
        PlanWritesAt(e, a, k);
      } else {
        assert (a + b)[k] == b[k - |a|];
        PlanWritesAt(e, b, k - |a|);
      }
    }
  }

  /** The writes of a pass over the blocks es, when d buffers were drawn before them. */
  function PassWrites(es: seq<Extent>, secure: bool, d: nat): seq<Write>
  {
    if es == [] then []
    else PlanWrites(es[0], BlockPlan(secure, d)) + PassWrites(es[1..], secure, d + DrawsPerBlock(secure))
  }

  /** The bytes that survive a pass over the blocks es: in every block, the last buffer
      drawn for it. */
  function Survivors(es: seq<Extent>, secure: bool, d: nat, random: RandomOracle): seq<Byte>
  {
    if es == [] then []
    else Bytes(Noise(d + DrawsPerBlock(secure) - 1), es[0].len, random)
         + Survivors(es[1..], secure, d + DrawsPerBlock(secure), random)
  }

  /** The file content a pass leaves behind. */
  function PassContent(size: nat, bs: nat, secure: bool, random: RandomOracle): seq<Byte>
    requires bs > 0
  {
    Survivors(Extents(size, bs, 0), secure, 0, random)
  }

  lemma {:induction false} SurvivorsLength(size: nat, bs: nat, offset: nat, secure: bool, d: nat, random: RandomOracle)
    requires bs > 0
    ensures |Survivors(Extents(size, bs, offset), secure, d, random)| == if offset <= size then size - offset else 0
    decreases size - offset
  {
    var es := Extents(size, bs, offset);
    if offset < size {
      assert es[1..] == Extents(size, bs, offset + bs);
      if offset + bs <= size {
        SurvivorsLength(size, bs, offset + bs, secure, d + DrawsPerBlock(secure), random);
      } else {
        assert Extents(size, bs, offset + bs) == [];
      }
    }
  }

  /** Writing a non-empty plan into one block leaves the block holding the plan's last fill
      and the rest of the file as it was. */
  lemma {:induction false} PlanLastWins(c: seq<Byte>, e: Extent, plan: seq<Fill>, random: RandomOracle)
    requires e.offset + e.len <= |c| && plan != []
    ensures InBounds(PlanWrites(e, plan), |c|)
    ensures ApplyAll(c, PlanWrites(e, plan), random) == Splice(c, e.offset, Bytes(plan[|plan| - 1], e.len, random))
    decreases |plan|
  {
    var ws := PlanWrites(e, plan);
    var c1 := Apply(c, ws[0], random);
    assert ws[1..] == PlanWrites(e, plan[1..]);
    if |plan| == 1 {
      assert ws[1..] == [];
    } else {
      PlanLastWins(c1, e, plan[1..], random);
      SpliceTwice(c, e.offset, Bytes(plan[0], e.len, random), Bytes(plan[|plan| - 1], e.len, random));
    }
  }

  lemma PlanWritesInBounds(e: Extent, plan: seq<Fill>, size: nat)
    requires e.offset + e.len <= size
    ensures InBounds(PlanWrites(e, plan), size)
  {
    forall k | 0 <= k < |plan|
      ensures PlanWrites(e, plan)[k].offset + PlanWrites(e, plan)[k].len <= size
    {
      PlanWritesAt(e, plan, k);
    }
  }

  lemma {:induction false} PassWritesInBounds(size: nat, bs: nat, offset: nat, secure: bool, d: nat)
    requires bs > 0
    ensures InBounds(PassWrites(Extents(size, bs, offset), secure, d), size)
    decreases size - offset
  {
    if offset < size {
      var es := Extents(size, bs, offset);
      assert es[0] == Extent(offset, Min(bs, size - offset));
      assert es[1..] == Extents(size, bs, offset + bs);
      var head: seq<Write> := PlanWrites(es[0], BlockPlan(secure, d));
      var tail: seq<Write> := PassWrites(es[1..], secure, d + DrawsPerBlock(secure));
      PlanWritesInBounds(es[0], BlockPlan(secure, d), size);
      PassWritesInBounds(size, bs, offset + bs, secure, d + DrawsPerBlock(secure));
      assert PassWrites(es, secure, d) == head + tail;
      forall k | 0 <= k < |head + tail|
        ensures (head + tail)[k].offset + (head + tail)[k].len <= size
      {
        if k >= |head| {
          assert (head + tail)[k] == tail[k - |head|];
        }
      }
    }
  }

  /** One step of the offset loop: the first block's plan, then the rest of the pass. */
  lemma PassWritesUnfold(size: nat, bs: nat, offset: nat, secure: bool, d: nat)
    requires bs > 0 && offset < size
    ensures PassWrites(Extents(size, bs, offset), secure, d)
            == PlanWrites(Extent(offset, Min(bs, size - offset)), BlockPlan(secure, d))
               + PassWrites(Extents(size, bs, offset + bs), secure, d + DrawsPerBlock(secure))
  {
    var es := Extents(size, bs, offset);
    assert es[0] == Extent(offset, Min(bs, size - offset));
    assert es[1..] == Extents(size, bs, offset + bs);
  }

  /** One step of the offset loop: the first block's last random buffer, then the bytes
      surviving in the rest of the file. */
  lemma SurvivorsUnfold(size: nat, bs: nat, offset: nat, secure: bool, d: nat, random: RandomOracle)
    requires bs > 0 && offset < size
    ensures Survivors(Extents(size, bs, offset), secure, d, random)
            == Bytes(Noise(d + DrawsPerBlock(secure) - 1), Min(bs, size - offset), random)
               + Survivors(Extents(size, bs, offset + bs), secure, d + DrawsPerBlock(secure), random)
  {
    var es := Extents(size, bs, offset);
    assert es[0] == Extent(offset, Min(bs, size - offset));
    assert es[1..] == Extents(size, bs, offset + bs);
  }

  /** Replaying the writes of a pass on any content of the file's length leaves exactly the
      surviving random bytes from `offset` on: every earlier write to a block is overwritten
      by that block's last random buffer. */
  lemma {:induction false} PassLastWins(c: seq<Byte>, bs: nat, offset: nat, secure: bool, d: nat, random: RandomOracle)
    requires bs > 0 && offset <= |c|
    ensures InBounds(PassWrites(Extents(|c|, bs, offset), secure, d), |c|)
    ensures ApplyAll(c, PassWrites(Extents(|c|, bs, offset), secure, d), random)
            == c[..offset] + Survivors(Extents(|c|, bs, offset), secure, d, random)
    decreases |c| - offset
  {
    var size := |c|;
    PassWritesInBounds(size, bs, offset, secure, d);
    if offset == size {
      assert c[..offset] == c;
    } else {
      var d' := d + DrawsPerBlock(secure);
      var block := Bytes(Noise(d' - 1), Min(bs, size - offset), random);
      var rest := Survivors(Extents(size, bs, offset + bs), secure, d', random);
      PassWritesInBounds(size, bs, offset + bs, secure, d');
      FirstBlockStep(c, bs, offset, secure, d, random);
      BlockThenRest(c, Splice(c, offset, block), bs, offset, secure, d', random, block);
      SurvivorsUnfold(size, bs, offset, secure, d, random);
      Regroup(ApplyAll(c, PassWrites(Extents(size, bs, offset), secure, d), random),
              ApplyAll(Splice(c, offset, block), PassWrites(Extents(size, bs, offset + bs), secure, d'), random),
              c[..offset], block, rest, Survivors(Extents(size, bs, offset), secure, d, random));
    }
  }

  lemma Regroup(a: seq<Byte>, b: seq<Byte>, prefix: seq<Byte>, block: seq<Byte>, rest: seq<Byte>, s: seq<Byte>)
    requires a == b && b == prefix + block + rest && s == block + rest
    ensures a == prefix + s
  {
  }

  /** Replaying a pass from offset: first the block at offset ends up holding its last
      random buffer, then the rest of the pass follows. */
  lemma FirstBlockStep(c: seq<Byte>, bs: nat, offset: nat, secure: bool, d: nat, random: RandomOracle)
    requires bs > 0 && offset < |c|
    requires InBounds(PassWrites(Extents(|c|, bs, offset), secure, d), |c|)
    requires InBounds(PassWrites(Extents(|c|, bs, offset + bs), secure, d + DrawsPerBlock(secure)), |c|)
    ensures var d' := d + DrawsPerBlock(secure);
      var block := Bytes(Noise(d' - 1), Min(bs, |c| - offset), random);
      ApplyAll(c, PassWrites(Extents(|c|, bs, offset), secure, d), random)
        == ApplyAll(Splice(c, offset, block), PassWrites(Extents(|c|, bs, offset + bs), secure, d'), random)
  {
    var size := |c|;
    var e := Extent(offset, Min(bs, size - offset));
    var plan := BlockPlan(secure, d);
    var d' := d + DrawsPerBlock(secure);
    var head := PlanWrites(e, plan);
    var tail := PassWrites(Extents(size, bs, offset + bs), secure, d');
    PassWritesUnfold(size, bs, offset, secure, d);
    assert PassWrites(Extents(size, bs, offset), secure, d) == head + tail;
    BlockPlanLast(secure, d);
    var lastFill := plan[|plan| - 1];
    assert lastFill == Noise(d' - 1);
    PlanLastWins(c, e, plan, random);
    assert ApplyAll(c, head, random) == Splice(c, offset, Bytes(lastFill, e.len, random));
    ApplyAllAppend(c, head, tail, random);
  }

  lemma {:induction false} BlockThenRest(c: seq<Byte>, c1: seq<Byte>, bs: nat, offset: nat, secure: bool, d': nat,
                                         random: RandomOracle, block: seq<Byte>)
    requires bs > 0 && offset < |c| && |block| == Min(bs, |c| - offset)
    requires c1 == Splice(c, offset, block)
    requires InBounds(PassWrites(Extents(|c|, bs, offset + bs), secure, d'), |c|)
    ensures ApplyAll(c1, PassWrites(Extents(|c|, bs, offset + bs), secure, d'), random)
            == c[..offset] + block + Survivors(Extents(|c|, bs, offset + bs), secure, d', random)
    decreases |c| - offset, 0
  {
    var size := |c|;
    if offset + bs <= size {
      PassLastWins(c1, bs, offset + bs, secure, d', random);
      assert c1[..offset + bs] == c[..offset] + block;
    } else {
      assert Extents(size, bs, offset + bs) == [];
      assert c1 == c[..offset] + block;
    }
  }

  /** Over the whole file: whatever the file held before, replaying a pass leaves
      PassContent, the last random buffer of every block. */
  lemma PassContentSurvives(c: seq<Byte>, bs: nat, secure: bool, random: RandomOracle)
    requires bs > 0
    ensures InBounds(PassWrites(Extents(|c|, bs, 0), secure, 0), |c|)
    ensures ApplyAll(c, PassWrites(Extents(|c|, bs, 0), secure, 0), random) == PassContent(|c|, bs, secure, random)
  {
    PassLastWins(c, bs, 0, secure, 0, random);
  }

  // ---------------------------------------------------------------------------
  // The file stream

  /** An open read/write file stream over a file of fixed length. */
  class FileStream {
    const data: array<Byte>
    /** Every write made through this stream, in order. */
    ghost var writes: seq<Write>

    constructor (content: array<Byte>)
      ensures data == content && writes == []
    {
      data := content;
      writes := [];
    }

    /** seekp(offset) then write(buffer, n); `fill` names what the buffer holds. */
    method WriteAt(offset: nat, buffer: array<Byte>, n: nat, ghost fill: Fill, ghost random: RandomOracle)
      requires n <= buffer.Length && offset + n <= data.Length && buffer != data
      requires buffer[..n] == Bytes(fill, n, random)
      modifies data, this`writes
      ensures writes == old(writes) + [Write(offset, n, fill)]
      ensures data[..] == Splice(old(data[..]), offset, buffer[..n])
    {
      forall k | 0 <= k < n {
        data[offset + k] := buffer[k];
      }
      writes := writes + [Write(offset, n, fill)];
      assert data[..] == old(data[..offset]) + buffer[..n] + old(data[offset + n..]);
    }

    /** Reading n bytes at offset into buffer (the sequential reads after seekg(0)), from a
        device that returns the byte at `fault`, if any, wrong. */
    method ReadAt(offset: nat, buffer: array<Byte>, n: nat, fault: Option<nat>)
      requires n <= buffer.Length && offset + n <= data.Length && buffer != data
      modifies buffer
      ensures buffer[..n] == Observed(data[..], fault)[offset..offset + n]
      ensures buffer[n..] == old(buffer[n..])
    {
      forall k | 0 <= k < n {
        buffer[k] := if fault == Some(offset + k) then !data[offset + k] else data[offset + k];
      }
    }
  }

  /** A read fault lies inside a file of `size` bytes. */
  predicate Corrupts(fault: Option<nat>, size: nat)
  {
    fault.Some? && fault.value < size
  }

  /** What reading all of `data` back returns when the device gets the byte at `fault`, if
      any, wrong: every other byte as written, and the read differs from what was written
      exactly when the fault lies inside the file. */
  function Observed(data: seq<Byte>, fault: Option<nat>): (r: seq<Byte>)
    ensures |r| == |data|
    ensures forall k :: 0 <= k < |data| && fault != Some(k) ==> r[k] == data[k]
    ensures r == data <==> !Corrupts(fault, |data|)
  {
    var r := seq(|data|, k requires 0 <= k < |data| => if fault == Some(k) then !data[k] else data[k]);
    if Corrupts(fault, |data|) then
      assert r[fault.value] != data[fault.value];
      r
    else
      r
  }

  /** std::fill of the whole buffer with one byte (also the memcpy of a pattern). */
  method FillConstant(buffer: array<Byte>, b: Byte)
    modifies buffer
    ensures forall k :: 0 <= k < buffer.Length ==> buffer[k] == b
  {
    forall k | 0 <= k < buffer.Length {
      buffer[k] := b;
    }
  }

  /** std::generate of the whole buffer from the generator: buffer number d. */
  method FillNoise(buffer: array<Byte>, random: RandomOracle, d: nat)
    modifies buffer
    ensures buffer[..] == Bytes(Noise(d), buffer.Length, random)
  {
    forall k | 0 <= k < buffer.Length {
      buffer[k] := random(d, k);
    }
  }

  // ---------------------------------------------------------------------------
  // The read-back check

  /** The read-back check: the file is read block by block, through a device with the
      read fault `fault`, and each block compared with `expected` at the same offset; the
      first differing block's offset is returned, or None when every block matches. */
  method VerifyReadBack(file: FileStream, expected: seq<Byte>, bs: nat, fault: Option<nat>)
    returns (failedAt: Option<nat>)
    requires bs > 0 && |expected| == file.data.Length
    ensures failedAt.None? <==> Observed(file.data[..], fault) == expected
    ensures failedAt.Some? ==> FirstMismatch(Observed(file.data[..], fault), expected, bs, failedAt.value)
  {
    var size := |expected|;
    var verifyBuffer := new Byte[bs];
    ghost var done: seq<Extent> := [];
    var offset := 0;
    while offset < size
      invariant Extents(size, bs, 0) == done + Extents(size, bs, offset)
      invariant Observed(file.data[..], fault)[..Min(offset, size)] == expected[..Min(offset, size)]
      decreases size - offset
    {
      var same, next;
      same, next, done := ReadBackStep(file, verifyBuffer, expected, bs, offset, done, fault);
      if !same {
        return Some(offset);
      }
      offset := next;
    }
    WholePrefix(Observed(file.data[..], fault), expected, offset);
    return None;
  }

  /** One iteration of the read-back loop: the block at offset is read and compared.  When
      it matches, the matching prefix and the visited blocks grow by it; otherwise the check
      stops there. */
  method ReadBackStep(file: FileStream, buffer: array<Byte>, expected: seq<Byte>, bs: nat, offset: nat,
                      ghost done: seq<Extent>, fault: Option<nat>)
    returns (same: bool, next: nat, ghost done': seq<Extent>)
    requires bs > 0 && buffer.Length == bs && buffer != file.data && |expected| == file.data.Length
    requires offset < |expected|
    requires Extents(|expected|, bs, 0) == done + Extents(|expected|, bs, offset)
    requires Observed(file.data[..], fault)[..Min(offset, |expected|)] == expected[..Min(offset, |expected|)]
    modifies buffer
    ensures next == offset + bs
    ensures same ==> Extents(|expected|, bs, 0) == done' + Extents(|expected|, bs, next)
    ensures same ==> Observed(file.data[..], fault)[..Min(next, |expected|)] == expected[..Min(next, |expected|)]
    ensures !same ==> FirstMismatch(Observed(file.data[..], fault), expected, bs, offset) &&
                      Observed(file.data[..], fault) != expected
  {
    var readSize := Min(bs, |expected| - offset);
    same := CompareBlock(file, buffer, expected, offset, readSize, fault);
    next := offset + bs;
    ExtentsUnfold(|expected|, bs, offset, next);
    done' := done + [Extent(offset, readSize)];
    if !same {
      MismatchAt(Observed(file.data[..], fault), expected, bs, offset, done, next);
    } else {
      MatchingPrefix(Observed(file.data[..], fault), expected, offset, readSize);
    }
  }

  /** A matching prefix that reaches past the end is the whole content. */
  lemma WholePrefix(x: seq<Byte>, y: seq<Byte>, offset: nat)
    requires |x| == |y| <= offset && x[..Min(offset, |y|)] == y[..Min(offset, |y|)]
    ensures x == y
  {
    assert x == x[..|x|] && y == y[..|y|];
  }

  /** The read-back check stops at offset o: o starts a block of the loop, the file agrees
      with the expected bytes before it and differs from them inside the block. */
  ghost predicate FirstMismatch(data: seq<Byte>, expected: seq<Byte>, bs: nat, o: nat)
    requires bs > 0
  {
    |data| == |expected| && o < |expected| &&
    var e := Extent(o, Min(bs, |expected| - o));
    e in Extents(|expected|, bs, 0) &&
    data[..o] == expected[..o] &&
    data[o..o + e.len] != expected[o..o + e.len]
  }

  lemma MismatchAt(data: seq<Byte>, expected: seq<Byte>, bs: nat, o: nat, done: seq<Extent>, next: nat)
    requires bs > 0 && |data| == |expected| && o < |expected| && next == o + bs
    requires Extents(|expected|, bs, 0) == done + Extents(|expected|, bs, o)
    requires Extents(|expected|, bs, o) == [Extent(o, Min(bs, |expected| - o))] + Extents(|expected|, bs, next)
    requires data[..Min(o, |expected|)] == expected[..Min(o, |expected|)]
    requires data[o..o + Min(bs, |expected| - o)] != expected[o..o + Min(bs, |expected| - o)]
    ensures FirstMismatch(data, expected, bs, o) && data != expected
  {
    assert Extents(|expected|, bs, 0)[|done|] == Extent(o, Min(bs, |expected| - o));
  }

  /** One read of the read-back loop and the comparison of what it read with the
      expected bytes at the same offset. */
  method CompareBlock(file: FileStream, buffer: array<Byte>, expected: seq<Byte>, offset: nat, n: nat,
                      fault: Option<nat>)
    returns (same: bool)
    requires n <= buffer.Length && offset + n <= file.data.Length && buffer != file.data
    requires |expected| == file.data.Length
    modifies buffer
    ensures same <==> Observed(file.data[..], fault)[offset..offset + n] == expected[offset..offset + n]
  {
    file.ReadAt(offset, buffer, n, fault);
    same := buffer[..n] == expected[offset..offset + n];
  }

  /** The matching prefix of two contents grows by a block in which they agree. */
  lemma MatchingPrefix(x: seq<Byte>, y: seq<Byte>, offset: nat, n: nat)
    requires |x| == |y| && offset + n <= |x|
    requires x[..offset] == y[..offset] && x[offset..offset + n] == y[offset..offset + n]
    ensures x[..offset + n] == y[..offset + n]
  {
    assert x[..offset + n] == x[..offset] + x[offset..offset + n];
    assert y[..offset + n] == y[..offset] + y[offset..offset + n];
  }

  // ---------------------------------------------------------------------------
  // One overwrite pass

  /** One iteration of the nested `pass` loop of secure mode: pattern number `pass`, then,
      when pass is odd, random buffer number `draw`.  The block holds whatever was written
      last. */
  method WritePattern(file: FileStream, offset: nat, n: nat, buffer: array<Byte>, random: RandomOracle,
                      pass: nat, draw: nat) returns (draw': nat, ghost written: seq<Byte>)
    requires pass < |Patterns|
    requires n <= buffer.Length && offset + n <= file.data.Length && buffer != file.data
    modifies file.data, file`writes, buffer
    ensures draw' == if pass % 2 == 1 then draw + 1 else draw
    ensures file.writes == old(file.writes) + PlanWrites(Extent(offset, n), StepFills(pass, draw))
    ensures |written| == n && file.data[..] == Splice(old(file.data[..]), offset, written)
  {
    ghost var e := Extent(offset, n);
    FillConstant(buffer, Patterns[pass]);
    ghost var first := Bytes(Constant(Patterns[pass]), n, random);
    assert buffer[..n] == first;
    file.WriteAt(offset, buffer, n, Constant(Patterns[pass]), random);
    written := first;
    draw' := draw;
    if pass % 2 == 1 {
      FillNoise(buffer, random, draw);
      written := Bytes(Noise(draw), n, random);
      assert buffer[..n] == written;
      file.WriteAt(offset, buffer, n, Noise(draw), random);
      SpliceTwice(old(file.data[..]), offset, first, written);
      draw' := draw + 1;
    }
  }

  /** The nested `pass` loop of secure mode for the block at offset: each of the eight
      patterns in turn, with a fresh random buffer (number d, d + 1, ...) after each
      odd-indexed one. */
  method WritePatternPasses(file: FileStream, offset: nat, n: nat, buffer: array<Byte>, random: RandomOracle, d: nat)
    returns (ghost written: seq<Byte>)
    requires n <= buffer.Length && offset + n <= file.data.Length && buffer != file.data
    modifies file.data, file`writes, buffer
    ensures file.writes == old(file.writes) + PlanWrites(Extent(offset, n), PatternFills(|Patterns|, d))
    ensures |written| == n && file.data[..] == Splice(old(file.data[..]), offset, written)
  {
    ghost var before := file.writes;
    ghost var e := Extent(offset, n);
    written := file.data[offset..offset + n];
    assert file.data[..] == Splice(file.data[..], offset, written);
    assert PlanWrites(e, PatternFills(0, d)) == [];
    var draw := d;
    var pass := 0;
    while pass < |Patterns|
      invariant 0 <= pass <= |Patterns| && draw == d + pass / 2
      invariant file.writes == before + PlanWrites(e, PatternFills(pass, d))
      invariant |written| == n && file.data[..] == Splice(old(file.data[..]), offset, written)
    {
      ghost var w;
      ghost var done := file.writes;
      PatternStep(e, pass, d, draw);
      draw, w := WritePattern(file, offset, n, buffer, random, pass, draw);
      SpliceTwice(old(file.data[..]), offset, written, w);
      written := w;
      pass := pass + 1;
    }
  }

  /** The writes of the pattern loop so far, followed by those of iteration `pass`, are
      the writes of one more iteration. */
  lemma PatternStep(e: Extent, pass: nat, d: nat, draw: nat)
    requires pass < |Patterns| && draw == d + pass / 2
    ensures PlanWrites(e, PatternFills(pass + 1, d)) == PlanWrites(e, PatternFills(pass, d)) + PlanWrites(e, StepFills(pass, draw))
  {
    PlanWritesAppend(e, PatternFills(pass, d), StepFills(pass, draw));
  }

  /** All writes to the block at offset: one random buffer (number d) in plain mode, the
      fifteen writes of BlockPlan in secure mode.  Only the last random buffer survives in
      the block, and the buffer still holds it. */
  method OverwriteBlock(file: FileStream, offset: nat, n: nat, buffer: array<Byte>, secure: bool, random: RandomOracle, d: nat)
    requires n <= buffer.Length && offset + n <= file.data.Length && buffer != file.data
    modifies file.data, file`writes, buffer
    ensures file.writes == old(file.writes) + PlanWrites(Extent(offset, n), BlockPlan(secure, d))
    ensures buffer[..] == Bytes(Noise(d + DrawsPerBlock(secure) - 1), buffer.Length, random)
    ensures file.data[..] == Splice(old(file.data[..]), offset, buffer[..n])
  {
    ghost var e := Extent(offset, n);
    if !secure {
      FillNoise(buffer, random, d);
      file.WriteAt(offset, buffer, n, Noise(d), random);
      assert PlanWrites(e, [Noise(d)]) == [Write(offset, n, Noise(d))];
    } else {
      ghost var w := WritePatternPasses(file, offset, n, buffer, random, d);
      ghost var mid := file.data[..];
      ghost var patterns := file.writes;
      FinalWrites(file, offset, n, buffer, random, d + 4);
      SpliceTwice(old(file.data[..]), offset, w, buffer[..n]);
      PlanWritesAppend(e, PatternFills(|Patterns|, d), [Constant(0x00), Constant(0xFF), Noise(d + 4)]);
    }
  }

  /** The three writes after the pattern loop of secure mode: all zeros, all ones, then
      random buffer number draw. */
  method FinalWrites(file: FileStream, offset: nat, n: nat, buffer: array<Byte>, random: RandomOracle, draw: nat)
    requires n <= buffer.Length && offset + n <= file.data.Length && buffer != file.data
    modifies file.data, file`writes, buffer
    ensures file.writes == old(file.writes)
      + PlanWrites(Extent(offset, n), [Constant(0x00), Constant(0xFF), Noise(draw)])
    ensures buffer[..] == Bytes(Noise(draw), buffer.Length, random)
    ensures file.data[..] == Splice(old(file.data[..]), offset, buffer[..n])
  {
    ghost var e := Extent(offset, n);
    FillConstant(buffer, 0x00);
    ghost var zeros := Bytes(Constant(0x00), n, random);
    assert buffer[..n] == zeros;
    file.WriteAt(offset, buffer, n, Constant(0x00), random);
    FillConstant(buffer, 0xFF);
    ghost var ones := Bytes(Constant(0xFF), n, random);
    assert buffer[..n] == ones;
    file.WriteAt(offset, buffer, n, Constant(0xFF), random);
    SpliceTwice(old(file.data[..]), offset, zeros, ones);
    FillNoise(buffer, random, draw);
    file.WriteAt(offset, buffer, n, Noise(draw), random);
    SpliceTwice(old(file.data[..]), offset, ones, buffer[..n]);
    ghost var fills := [Constant(0x00), Constant(0xFF), Noise(draw)];
    assert fills[1..][1..] == [Noise(draw)];
    assert PlanWrites(e, fills[1..][1..]) == [Write(offset, n, Noise(draw))];
    assert fills[1..] == [Constant(0xFF), Noise(draw)];
    assert PlanWrites(e, fills[1..]) == [Write(offset, n, Constant(0xFF)), Write(offset, n, Noise(draw))];
  }

  /** Writing a block at offset into content c extends the known prefix c[..offset] by it. */
  lemma SplicePrefix(c: seq<Byte>, offset: nat, block: seq<Byte>)
    requires offset + |block| <= |c|
    ensures Splice(c, offset, block)[..offset + |block|] == c[..offset] + block
  {
    var r := Splice(c, offset, block);
    assert r[..offset + |block|] == r[..offset] + r[offset..offset + |block|];
  }

  /** One step of the offset loop: the block at offset receives its last random buffer in
      the file and, with verify on, in lastRandomData; the prefix invariants then hold one
      block further on. */
  lemma OffsetStep(c: seq<Byte>, l: seq<Byte>, size: nat, bs: nat, offset: nat, secure: bool, verify: bool, draw: nat,
                   random: RandomOracle)
    requires bs > 0 && offset < size && |c| == size && |l| == size
    requires c[..offset] + Survivors(Extents(size, bs, offset), secure, draw, random) == PassContent(size, bs, secure, random)
    requires verify ==> l[..offset] == c[..offset]
    ensures var d' := draw + DrawsPerBlock(secure);
      var block := Bytes(Noise(d' - 1), Min(bs, size - offset), random);
      var c' := Splice(c, offset, block);
      var l' := if verify then Splice(l, offset, block) else l;
      var next := Min(offset + bs, size);
      c'[..next] + Survivors(Extents(size, bs, offset + bs), secure, d', random) == PassContent(size, bs, secure, random) &&
      (verify ==> l'[..next] == c'[..next])
  {
    var d' := draw + DrawsPerBlock(secure);
    var block := Bytes(Noise(d' - 1), Min(bs, size - offset), random);
    SurvivorsUnfold(size, bs, offset, secure, draw, random);
    KnownPrefixStep(c, offset, block, Survivors(Extents(size, bs, offset + bs), secure, d', random),
                    PassContent(size, bs, secure, random));
    if verify {
      SplicePrefix(c, offset, block);
      SplicePrefix(l, offset, block);
    }
  }

  /** Writing the next block of the expected content extends the prefix of the content
      that is in place by that block. */
  lemma KnownPrefixStep(c: seq<Byte>, offset: nat, block: seq<Byte>, rest: seq<Byte>, content: seq<Byte>)
    requires offset + |block| <= |c|
    requires c[..offset] + (block + rest) == content
    ensures Splice(c, offset, block)[..offset + |block|] + rest == content
  {
    SplicePrefix(c, offset, block);
  }

  /** A prefix of a buffer is the buffer of the shorter length. */
  lemma BytesPrefix(f: Fill, n: nat, m: nat, random: RandomOracle)
    requires m <= n
    ensures Bytes(f, n, random)[..m] == Bytes(f, m, random)
  {
  }

  /** std::copy of the first n bytes of the buffer into lastRandomData at offset. */
  method CopyBlock(buffer: array<Byte>, last: array<Byte>, offset: nat, n: nat)
    requires n <= buffer.Length && offset + n <= last.Length && buffer != last
    modifies last
    ensures last[..] == Splice(old(last[..]), offset, buffer[..n])
  {
    forall k | 0 <= k < n {
      last[offset + k] := buffer[k];
    }
    assert last[..] == old(last[..offset]) + buffer[..n] + old(last[offset + n..]);
  }

  /** The offset loop's invariants hold one block further on, once the block at offset
      has received its writes (w to w'), the file its last random buffer (c to c') and,
      with verify on, lastRandomData the same buffer (l to l').  The writes still to
      come are rw, then rw'; the bytes still to come are rb, then rb'. */
  lemma LoopStep(c: seq<Byte>, l: seq<Byte>, w: seq<Write>, c': seq<Byte>, l': seq<Byte>, w': seq<Write>,
                 rw: seq<Write>, rw': seq<Write>, rb: seq<Byte>, rb': seq<Byte>,
                 total: seq<Write>, content: seq<Byte>, bs: nat, offset: nat, n: nat, secure: bool, verify: bool,
                 draw: nat, offset': nat, draw': nat, random: RandomOracle)
    requires bs > 0 && offset < |c| && |l| == |c| && n == Min(bs, |c| - offset)
    requires offset' == offset + bs && draw' == draw + DrawsPerBlock(secure)
    requires rw == PassWrites(Extents(|c|, bs, offset), secure, draw)
    requires rw' == PassWrites(Extents(|c|, bs, offset'), secure, draw')
    requires rb == Survivors(Extents(|c|, bs, offset), secure, draw, random)
    requires rb' == Survivors(Extents(|c|, bs, offset'), secure, draw', random)
    requires content == PassContent(|c|, bs, secure, random)
    requires total == w + rw
    requires c[..offset] + rb == content
    requires verify ==> l[..offset] == c[..offset]
    requires w' == w + PlanWrites(Extent(offset, n), BlockPlan(secure, draw))
    requires c' == Splice(c, offset, Bytes(Noise(draw + DrawsPerBlock(secure) - 1), n, random))
    requires l' == if verify then Splice(l, offset, Bytes(Noise(draw + DrawsPerBlock(secure) - 1), n, random)) else l
    ensures total == w' + rw'
    ensures c'[..Min(offset', |c|)] + rb' == content
    ensures verify ==> l'[..Min(offset', |c|)] == c'[..Min(offset', |c|)]
  {
    var size := |c|;
    OffsetStep(c, l, size, bs, offset, secure, verify, draw, random);
    WritesStep(w, w', total, size, bs, offset, secure, draw);
  }

  /** The offset loop's invariant on the recorded writes holds one block further on. */
  lemma WritesStep(w: seq<Write>, w': seq<Write>, total: seq<Write>, size: nat, bs: nat, offset: nat, secure: bool, draw: nat)
    requires bs > 0 && offset < size
    requires total == w + PassWrites(Extents(size, bs, offset), secure, draw)
    requires w' == w + PlanWrites(Extent(offset, Min(bs, size - offset)), BlockPlan(secure, draw))
    ensures total == w' + PassWrites(Extents(size, bs, offset + bs), secure, draw + DrawsPerBlock(secure))
  {
    PassWritesUnfold(size, bs, offset, secure, draw);
    var plan := PlanWrites(Extent(offset, Min(bs, size - offset)), BlockPlan(secure, draw));
    var later := PassWrites(Extents(size, bs, offset + bs), secure, draw + DrawsPerBlock(secure));
    assert total == w + (plan + later);
  }

  /** One iteration of the offset loop: the block's writes, then, with verify on, the copy
      of the block's last random buffer into lastRandomData. */
  method OverwriteStep(file: FileStream, offset: nat, n: nat, buffer: array<Byte>, last: array<Byte>,
                       secure: bool, verify: bool, random: RandomOracle, draw: nat)
    requires n <= buffer.Length && offset + n <= file.data.Length && last.Length == file.data.Length
    requires buffer != file.data && last != file.data && last != buffer
    modifies file.data, file`writes, buffer, last
    ensures file.writes == old(file.writes) + PlanWrites(Extent(offset, n), BlockPlan(secure, draw))
    ensures file.data[..] == Splice(old(file.data[..]), offset, Bytes(Noise(draw + DrawsPerBlock(secure) - 1), n, random))
    ensures last[..] == if verify then Splice(old(last[..]), offset, Bytes(Noise(draw + DrawsPerBlock(secure) - 1), n, random))
                        else old(last[..])
  {
    OverwriteBlock(file, offset, n, buffer, secure, random, draw);
    BytesPrefix(Noise(draw + DrawsPerBlock(secure) - 1), buffer.Length, n, random);
    assert buffer[..n] == buffer[..][..n];
    if verify {
      CopyBlock(buffer, last, offset, n);
    }
  }

  /** The body of the offset loop, with the loop's invariants as its contract: rw and rb
      are the writes and the bytes still to come at offset, rw' and rb' the same at the
      next offset. */
  method OffsetIteration(file: FileStream, bs: nat, buffer: array<Byte>, last: array<Byte>,
                         secure: bool, verify: bool, random: RandomOracle, offset: nat, draw: nat,
                         ghost rw: seq<Write>, ghost rb: seq<Byte>, ghost total: seq<Write>, ghost content: seq<Byte>)
    returns (offset': nat, draw': nat, ghost rw': seq<Write>, ghost rb': seq<Byte>)
    requires bs > 0 && buffer.Length == bs && last.Length == file.data.Length && offset < file.data.Length
    requires buffer != file.data && last != file.data && last != buffer
    requires rw == PassWrites(Extents(file.data.Length, bs, offset), secure, draw)
    requires rb == Survivors(Extents(file.data.Length, bs, offset), secure, draw, random)
    requires content == PassContent(file.data.Length, bs, secure, random)
    requires total == file.writes + rw
    requires file.data[..Min(offset, file.data.Length)] + rb == content
    requires verify ==> last[..Min(offset, file.data.Length)] == file.data[..Min(offset, file.data.Length)]
    modifies file.data, file`writes, buffer, last
    ensures offset' == offset + bs && draw' == draw + DrawsPerBlock(secure)
    ensures rw' == PassWrites(Extents(file.data.Length, bs, offset'), secure, draw')
    ensures rb' == Survivors(Extents(file.data.Length, bs, offset'), secure, draw', random)
    ensures total == file.writes + rw'
    ensures file.data[..Min(offset', file.data.Length)] + rb' == content
    ensures verify ==> last[..Min(offset', file.data.Length)] == file.data[..Min(offset', file.data.Length)]
    ensures !verify ==> last[..] == old(last[..])
  {
    var writeSize := Min(bs, file.data.Length - offset);
    ghost var c, l, w := file.data[..], last[..], file.writes;
    assert Min(offset, file.data.Length) == offset;
    OverwriteStep(file, offset, writeSize, buffer, last, secure, verify, random, draw);
    offset', draw' := offset + bs, draw + DrawsPerBlock(secure);
    rw' := PassWrites(Extents(file.data.Length, bs, offset'), secure, draw');
    rb' := Survivors(Extents(file.data.Length, bs, offset'), secure, draw', random);
    LoopStep(c, l, w, file.data[..], last[..], file.writes, rw, rw', rb, rb', total, content,
             bs, offset, writeSize, secure, verify, draw, offset', draw', random);
  }

  /** The offset loop of overwriteWithRandomData: every block in turn gets its plan.  The
      recorded writes are exactly the pass's plan, block by block, and the file then holds
      PassContent; with verify on, last (lastRandomData) holds the same bytes, otherwise it
      is left alone. */
  method OverwriteBlocks(file: FileStream, bs: nat, buffer: array<Byte>, last: array<Byte>,
                         secure: bool, verify: bool, random: RandomOracle)
    requires bs > 0 && buffer.Length == bs && last.Length == file.data.Length
    requires buffer != file.data && last != file.data && last != buffer
    modifies file.data, file`writes, buffer, last
    ensures file.writes == old(file.writes) + PassWrites(Extents(file.data.Length, bs, 0), secure, 0)
    ensures file.data[..] == PassContent(file.data.Length, bs, secure, random)
    ensures last[..] == if verify then file.data[..] else old(last[..])
  {
    var fileSize := file.data.Length;
    ghost var content := PassContent(fileSize, bs, secure, random);
    ghost var rw := PassWrites(Extents(fileSize, bs, 0), secure, 0);   // writes still to come
    ghost var rb := Survivors(Extents(fileSize, bs, 0), secure, 0, random);   // bytes still to come
    ghost var total := file.writes + rw;
    var offset := 0;
    var draw: nat := 0;   // buffers filled by the generator so far
    while offset < fileSize
      invariant rw == PassWrites(Extents(fileSize, bs, offset), secure, draw)
      invariant rb == Survivors(Extents(fileSize, bs, offset), secure, draw, random)
      invariant total == file.writes + rw
      invariant file.data[..Min(offset, fileSize)] + rb == content
      invariant verify ==> last[..Min(offset, fileSize)] == file.data[..Min(offset, fileSize)]
      invariant !verify ==> last[..] == old(last[..])
      decreases fileSize - offset
    {
      offset, draw, rw, rb := OffsetIteration(file, bs, buffer, last, secure, verify, random, offset, draw, rw, rb, total, content);
    }
    assert file.data[..] == file.data[..fileSize];
    assert last[..] == last[..fileSize];
  }

  /** One pass of overwriteWithRandomData over a file of file.data.Length bytes with block
      size bs.  The recorded writes are exactly the pass's plan, block by block; the file
      then holds PassContent; lastRandomData holds the same bytes when verify is on (and
      stays all zero otherwise); and the status is 1 exactly when verify is on and the
      read-back, through a device with the read fault `fault`, differs from what was
      written. */
  method OverwriteWithRandomData(file: FileStream, bs: nat, secure: bool, verify: bool, random: RandomOracle,
                                 fault: Option<nat>)
    returns (status: int, lastRandomData: seq<Byte>)
    requires bs > 0
    modifies file.data, file`writes
    ensures file.writes == old(file.writes) + PassWrites(Extents(file.data.Length, bs, 0), secure, 0)
    ensures file.data[..] == PassContent(file.data.Length, bs, secure, random)
    ensures lastRandomData == if verify then file.data[..] else seq(file.data.Length, _ => 0)
    ensures status == if verify && Corrupts(fault, file.data.Length) then 1 else 0
  {
    var fileSize := file.data.Length;
    var buffer := new Byte[bs];
    var last := new Byte[fileSize](_ => 0);
    assert last[..] == seq(fileSize, _ => 0);
    OverwriteBlocks(file, bs, buffer, last, secure, verify, random);
    lastRandomData := last[..];
    status := 0;
    if verify {
      var failedAt := VerifyReadBack(file, lastRandomData, bs, fault);
      if failedAt.Some? {
        status := 1;
      }
    }
  }
}
