/** Packed cache keys and packed cache values of short pretokens. */
module Packing {
  import opened Prelude
  import opened Bpe

  const SHIFT8: nat := 0x100
  const SHIFT24: nat := 0x100_0000
  const SHIFT32: nat := 0x1_0000_0000
  const SHIFT120: nat := 0x100_0000_0000_0000_0000_0000_0000_0000

  /** A pretoken the short cache holds. */
  predicate IsShort(t: seq<Byte>) {
    1 <= |t| <= SHORT_MAX
  }

  /** The bytes as a little-endian number. */
  function LittleEndian(t: seq<Byte>): nat {
    if t == [] then 0 else t[0] + SHIFT8 * LittleEndian(t[1..])
  }

  /** The cache key of a short pretoken: its bytes below, its length in the top byte. */
  function PackBytes(t: seq<Byte>): nat
    requires |t| <= SHORT_MAX
  {
    LittleEndian(t) + |t| * SHIFT120
  }

  function Pow256(n: nat): nat {
    if n == 0 then 1 else SHIFT8 * Pow256(n - 1)
  }

  lemma {:induction false} LittleEndianBound(t: seq<Byte>)
    ensures LittleEndian(t) < Pow256(|t|)
  {
    if t != [] {
      LittleEndianBound(t[1..]);
    }
  }

  lemma {:induction false} Pow256Grows(a: nat, b: nat)
    requires a <= b
    ensures 0 < Pow256(a) <= Pow256(b)
    decreases b
  {
    if a < b {
      Pow256Grows(a, b - 1);
    } else if a > 0 {
      Pow256Grows(a - 1, a - 1);
    }
  }

  lemma Pow256At15()
    ensures Pow256(15) == SHIFT120
  {
    assert Pow256(4) == 0x1_0000_0000;
    assert Pow256(8) == 0x1_0000_0000_0000_0000;
    assert Pow256(12) == 0x1_0000_0000_0000_0000_0000_0000;
  }

  lemma {:induction false} LittleEndianInjective(t: seq<Byte>, u: seq<Byte>)
    requires |t| == |u| && LittleEndian(t) == LittleEndian(u)
    ensures t == u
  {
    if t != [] {
      var x, y := LittleEndian(t[1..]), LittleEndian(u[1..]);
      assert t[0] + SHIFT8 * x == u[0] + SHIFT8 * y;
      assert t[0] == u[0] && x == y;
      LittleEndianInjective(t[1..], u[1..]);
      assert t == [t[0]] + t[1..] && u == [u[0]] + u[1..];
    }
  }

  lemma LengthOfKey(t: seq<Byte>)
    requires |t| <= SHORT_MAX
    ensures PackBytes(t) / SHIFT120 == |t|
  {
    LittleEndianBound(t);
    Pow256Grows(|t|, 15);
    Pow256At15();
  }

  /** Different short pretokens never share a key, and no nonempty one has the empty key. */
  lemma PackBytesInjective(t: seq<Byte>, u: seq<Byte>)
    requires |t| <= SHORT_MAX && |u| <= SHORT_MAX
    ensures PackBytes(t) == PackBytes(u) <==> t == u
    ensures PackBytes(t) == 0 <==> t == []
  {
    LengthOfKey(t);
    LengthOfKey(u);
    if PackBytes(t) == PackBytes(u) {
      LittleEndianInjective(t, u);
    }
  }

  // ------------------------------------------------------------------
  // Values
  // ------------------------------------------------------------------

  const VAL_SPILL: nat := 0x80

  function Count(val: nat): nat {
    val % 0x80
  }

  predicate Spilled(val: nat) {
    val / 0x80 % 2 == 1
  }

  function SpillOffset(val: nat): nat {
    val / SHIFT32
  }

  /** The four token lanes of an inline value. */
  function Lanes(val: nat, ext: nat): (r: seq<Token>)
    ensures |r| == 4
  {
    [val / SHIFT8 % SHIFT24, val / SHIFT32, ext % SHIFT32, ext / SHIFT32]
  }

  ghost predicate TokensFit(ids: seq<Token>) {
    forall i :: 0 <= i < |ids| ==> ids[i] < SHIFT32
  }

  /** Up to four tokens fit the value itself, if the first is below 2^24. */
  function PackInline(ids: seq<Token>): Option<(nat, nat)> {
    if 1 <= |ids| <= 4 && ids[0] < SHIFT24 then
      var b := if |ids| > 1 then ids[1] else 0;
      var c := if |ids| > 2 then ids[2] else 0;
      var d := if |ids| > 3 then ids[3] else 0;
      Some((|ids| + ids[0] * SHIFT8 + b * SHIFT32, c + d * SHIFT32))
    else None
  }

  /** A value reached by spilling `ids` to the arena's end. */
  function PackSpill(ids: seq<Token>, offset: nat): (nat, nat) {
    (VAL_SPILL + |ids| + offset * SHIFT32, 0)
  }

  /** The value stands for `ids`, inline or as a slice of the arena. */
  ghost predicate Encodes(val: nat, ext: nat, arena: seq<Token>, ids: seq<Token>) {
    && Count(val) == |ids|
    && (if Spilled(val) then
          SpillOffset(val) + |ids| <= |arena| && arena[SpillOffset(val)..SpillOffset(val) + |ids|] == ids
        else |ids| <= 4 && Lanes(val, ext)[..|ids|] == ids)
  }

  lemma LowSeven(n: nat, x: nat)
    requires n < 0x80
    ensures (n + 0x80 * x) % 0x80 == n && (n + 0x80 * x) / 0x80 == x
  {
  }

  lemma CountLane(n: nat, a: nat, b: nat)
    requires n <= 4
    ensures Count(n + a * SHIFT8 + b * SHIFT32) == n && !Spilled(n + a * SHIFT8 + b * SHIFT32)
  {
    var x := 2 * (a + b * SHIFT24);
    assert n + a * SHIFT8 + b * SHIFT32 == n + 0x80 * x;
    LowSeven(n, x);
    assert x % 2 == 0;
  }

  lemma TokenLanes(n: nat, a: nat, b: nat, c: nat, d: nat)
    requires n <= 4 && a < SHIFT24 && c < SHIFT32
    ensures Lanes(n + a * SHIFT8 + b * SHIFT32, c + d * SHIFT32) == [a, b, c, d]
  {
    var val := n + a * SHIFT8 + b * SHIFT32;
    assert val == n + SHIFT8 * (a + SHIFT24 * b);
    assert val / SHIFT8 == a + SHIFT24 * b;
  }

  lemma InlineEncodes(ids: seq<Token>, arena: seq<Token>)
    requires TokensFit(ids) && PackInline(ids).Some?
    ensures Encodes(PackInline(ids).value.0, PackInline(ids).value.1, arena, ids)
  {
    hide Count, Spilled, Lanes;
    var b := if |ids| > 1 then ids[1] else 0;
    var c := if |ids| > 2 then ids[2] else 0;
    var d := if |ids| > 3 then ids[3] else 0;
    CountLane(|ids|, ids[0], b);
    TokenLanes(|ids|, ids[0], b, c, d);
    assert [ids[0], b, c, d][..|ids|] == ids;
  }

  lemma SpillEncodes(ids: seq<Token>, arena: seq<Token>)
    requires |ids| < 0x80 && |arena| < SHIFT32
    ensures Encodes(PackSpill(ids, |arena|).0, PackSpill(ids, |arena|).1, arena + ids, ids)
  {
    var val := PackSpill(ids, |arena|).0;
    assert val / SHIFT32 == |arena|;
    assert val == |ids| + 0x80 * (1 + |arena| * 0x200_0000);
    assert (arena + ids)[|arena|..|arena| + |ids|] == ids;
  }

  /** Appending to the arena changes what no value stands for. */
  lemma EncodesAfterGrow(val: nat, ext: nat, arena: seq<Token>, more: seq<Token>, ids: seq<Token>)
    requires Encodes(val, ext, arena, ids)
    ensures Encodes(val, ext, arena + more, ids)
  {
    if Spilled(val) {
      var from, to := SpillOffset(val), SpillOffset(val) + |ids|;
      assert (arena + more)[from..to] == arena[from..to];
    }
  }

  /** Pack inline when possible, else append to the arena. */
  method PackVal(ids: seq<Token>, arena: seq<Token>) returns (val: nat, ext: nat, arena': seq<Token>)
    requires 1 <= |ids| <= SHORT_MAX && TokensFit(ids) && |arena| < SHIFT32
    ensures Encodes(val, ext, arena', ids)
    ensures arena <= arena' && |arena'| <= |arena| + |ids|
  {
    var inline := PackInline(ids);
    if inline.Some? {
      InlineEncodes(ids, arena);
      val, ext, arena' := inline.value.0, inline.value.1, arena;
    } else {
      SpillEncodes(ids, arena);
      var spill := PackSpill(ids, |arena|);
      val, ext, arena' := spill.0, spill.1, arena + ids;
    }
  }
}
