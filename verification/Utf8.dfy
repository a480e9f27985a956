/** Well-formed UTF-8 (Unicode Standard, Table 3-7) and character boundaries. */
module Utf8 {
  import opened Prelude

  predicate Continuation(b: Byte) {
    0x80 <= b < 0xC0
  }

  /** Width of the well-formed character at the start of `t`; 0 when there is none. */
  function CharWidth(t: seq<Byte>): (w: nat)
    ensures w <= 4 && w <= |t|
    ensures w > 0 ==> !Continuation(t[0])
    ensures forall i :: 1 <= i < w ==> Continuation(t[i])
  {
    if t == [] then 0
    else if t[0] < 0x80 then 1
    else if 0xC2 <= t[0] < 0xE0 then
      if |t| >= 2 && Continuation(t[1]) then 2 else 0
    else if 0xE0 <= t[0] < 0xF0 then
      if && |t| >= 3 && Continuation(t[1]) && Continuation(t[2])
         && (t[0] == 0xE0 ==> 0xA0 <= t[1]) && (t[0] == 0xED ==> t[1] < 0xA0)
      then 3 else 0
    else if 0xF0 <= t[0] < 0xF5 then
      if && |t| >= 4 && Continuation(t[1]) && Continuation(t[2]) && Continuation(t[3])
         && (t[0] == 0xF0 ==> 0x90 <= t[1]) && (t[0] == 0xF4 ==> t[1] < 0x90)
      then 4 else 0
    else 0
  }

  predicate Valid(t: seq<Byte>)
    decreases |t|
  {
    t == [] || (CharWidth(t) > 0 && Valid(t[CharWidth(t)..]))
  }

  predicate IsBoundary(t: seq<Byte>, p: nat) {
    p == 0 || p == |t| || (p < |t| && !Continuation(t[p]))
  }

  lemma ValidStart(t: seq<Byte>)
    requires Valid(t)
    ensures t == [] || !Continuation(t[0])
  {
  }

  /** In valid text a boundary is at most three bytes back. */
  lemma {:induction false} BoundaryNear(t: seq<Byte>, p: nat)
    requires Valid(t) && p <= |t|
    ensures exists q: nat :: q <= p <= q + 3 && IsBoundary(t, q)
    decreases |t|
  {
    if p <= 3 {
      assert IsBoundary(t, 0);
    } else {
      var w := CharWidth(t);
      BoundaryNear(t[w..], p - w);
      var q: nat :| q <= p - w <= q + 3 && IsBoundary(t[w..], q);
      ValidStart(t[w..]);
      assert IsBoundary(t, w + q);
    }
  }

  // ------------------------------------------------------------------
  // Cutting and joining valid text
  // ------------------------------------------------------------------

  /** A complete character is recognised whatever follows it. */
  lemma CharWidthLocal(t: seq<Byte>, u: seq<Byte>)
    requires CharWidth(t) > 0
    ensures CharWidth(t + u) == CharWidth(t)
    ensures forall p :: CharWidth(t) <= p <= |t| ==> CharWidth(t[..p]) == CharWidth(t)
  {
  }

  /** Cutting valid text at a character boundary leaves two valid texts. */
  lemma {:induction false} ValidSplit(t: seq<Byte>, p: nat)
    requires Valid(t) && p <= |t| && IsBoundary(t, p)
    ensures Valid(t[..p]) && Valid(t[p..])
    decreases |t|
  {
    if p == 0 {
      assert t[..0] == [] && t[0..] == t;
    } else {
      var w := CharWidth(t);
      assert w <= p;
      ValidStart(t[w..]);
      assert IsBoundary(t[w..], p - w);
      ValidSplit(t[w..], p - w);
      assert t[w..][p - w..] == t[p..] && t[..p][w..] == t[w..][..p - w];
      CharWidthLocal(t, []);
      assert CharWidth(t[..p]) == w;
    }
  }

  lemma {:induction false} ValidConcat(t: seq<Byte>, u: seq<Byte>)
    requires Valid(t) && Valid(u)
    ensures Valid(t + u)
    decreases |t|
  {
    if t == [] {
      assert t + u == u;
    } else {
      ValidConcat(t[CharWidth(t)..], u);
      FirstCharStays(t, u);
    }
  }

  lemma FirstCharStays(t: seq<Byte>, u: seq<Byte>)
    requires t != [] && Valid(t) && Valid(t[CharWidth(t)..] + u)
    ensures Valid(t + u)
  {
    CharWidthLocal(t, u);
    hide CharWidth;
    var w := CharWidth(t);
    assert (t + u)[w..] == t[w..] + u;
  }

  /** A three-byte lead is never cut off. */
  lemma {:induction false} LeadHasRoom(t: seq<Byte>, i: nat)
    requires Valid(t) && i < |t| && 0xE0 <= t[i] < 0xF0
    ensures i + 3 <= |t|
    decreases |t|
  {
    var w := CharWidth(t);
    if i >= w {
      LeadHasRoom(t[w..], i - w);
    }
  }
}
