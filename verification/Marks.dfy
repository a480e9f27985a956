/** The SentencePiece word mark, and raw text whose spaces stand for it. */
module Marks {
  import opened Prelude
  import Utf8

  const SPACE: Byte := 0x20

  /** UTF-8 of U+2581. */
  const MARK: seq<Byte> := [0xE2, 0x96, 0x81]

  /** Does a complete mark start at `p`? */
  predicate MarkAt(t: seq<Byte>, p: nat) {
    p + 3 <= |t| && t[p] == 0xE2 && t[p + 1] == 0x96 && t[p + 2] == 0x81
  }

  /** Width of the mark at `p`; in raw mode a space is a mark too. */
  function MarkWidth(t: seq<Byte>, p: nat, raw: bool): (w: Option<nat>)
    requires p < |t|
    ensures w.Some? ==> p + w.value <= |t| && !Utf8.Continuation(t[p])
    ensures w.Some? ==> w.value == (if t[p] == SPACE then 1 else 3)
  {
    if t[p] == SPACE && raw then Some(1)
    else if MarkAt(t, p) then Some(3)
    else None
  }

  /** A mark ends right before `p`. */
  predicate MarkEndsAt(t: seq<Byte>, p: nat, raw: bool) {
    && p <= |t|
    && ((raw && p >= 1 && t[p - 1] == SPACE) || (p >= 3 && MarkAt(t, p - 3)))
  }

  predicate EndsInMark(t: seq<Byte>) {
    |t| >= 3 && MarkAt(t, |t| - 3)
  }

  predicate HasMark(t: seq<Byte>) {
    exists k :: 0 <= k < |t| && MarkAt(t, k)
  }

  /** Neither a mark nor a space. */
  predicate Plain(t: seq<Byte>) {
    !HasMark(t) && SPACE !in t
  }

  // ------------------------------------------------------------------
  // Raw text and the text it stands for
  // ------------------------------------------------------------------

  function ShownByte(b: Byte): (s: seq<Byte>)
    ensures |s| >= 1
  {
    if b == SPACE then MARK else [b]
  }

  /** Raw text with every space replaced by the mark. */
  function Replaced(t: seq<Byte>): (s: seq<Byte>)
    ensures |s| >= |t|
  {
    if t == [] then [] else ShownByte(t[0]) + Replaced(t[1..])
  }

  /** What a text stands for. */
  function Shown(t: seq<Byte>, raw: bool): (s: seq<Byte>)
    ensures !raw ==> s == t
  {
    if raw then Replaced(t) else t
  }

  lemma {:induction false} ReplacedConcat(t: seq<Byte>, u: seq<Byte>)
    ensures Replaced(t + u) == Replaced(t) + Replaced(u)
  {
    if t == [] {
      assert t + u == u;
    } else {
      assert (t + u)[1..] == t[1..] + u;
      ReplacedConcat(t[1..], u);
    }
  }

  lemma ShownConcat(t: seq<Byte>, u: seq<Byte>, raw: bool)
    ensures Shown(t + u, raw) == Shown(t, raw) + Shown(u, raw)
  {
    ReplacedConcat(t, u);
  }

  lemma {:induction false} ReplacedPlain(t: seq<Byte>)
    requires SPACE !in t
    ensures Replaced(t) == t
  {
    if t != [] {
      ReplacedPlain(t[1..]);
    }
  }

  /** Showing keeps text valid. */
  lemma {:induction false} ReplacedValid(t: seq<Byte>)
    requires Utf8.Valid(t)
    ensures Utf8.Valid(Replaced(t))
    decreases |t|
  {
    if t != [] {
      var w := Utf8.CharWidth(t);
      ReplacedValid(t[w..]);
      assert t == t[..w] + t[w..];
      ReplacedConcat(t[..w], t[w..]);
      ReplacedChar(t[..w]);
      Utf8.ValidConcat(Replaced(t[..w]), Replaced(t[w..]));
    }
  }

  lemma ReplacedChar(c: seq<Byte>)
    requires c != [] && Utf8.CharWidth(c) == |c|
    ensures Utf8.Valid(Replaced(c))
    ensures c == [SPACE] ==> Replaced(c) == MARK
    ensures c != [SPACE] ==> Replaced(c) == c
  {
    if c == [SPACE] {
      ReplacedOne(SPACE);
      MarkIsText();
    } else {
      CharHoldsNoSpace(c);
      ReplacedPlain(c);
      assert c[|c|..] == [];
    }
  }

  lemma MarkIsText()
    ensures Utf8.CharWidth(MARK) == 3 && Utf8.Valid(MARK)
  {
    assert Utf8.CharWidth(MARK) == 3 && MARK[3..] == [];
  }

  lemma CharHoldsNoSpace(c: seq<Byte>)
    requires c != [] && Utf8.CharWidth(c) == |c| && c != [SPACE]
    ensures SPACE !in c
  {
    assert |c| == 1 ==> c == [c[0]];
    assert |c| > 1 ==> c[0] >= 0x80;
  }

  // ------------------------------------------------------------------
  // Plain neighbours look the same raw and shown
  // ------------------------------------------------------------------

  /** `s` ends `t`. */
  predicate EndsWith(t: seq<Byte>, s: seq<Byte>) {
    |s| <= |t| && t[|t| - |s|..] == s
  }

  /** `s` could be the tail of a plain valid text cut at a boundary: no mark, no dangling start. */
  ghost predicate TailLike(s: seq<Byte>) {
    !HasMark(s) && (s != [] ==> !Utf8.Continuation(s[0]))
  }

  /** `s` could be the head of a plain valid text cut at a boundary: no mark, no dangling end. */
  ghost predicate HeadLike(s: seq<Byte>) {
    && !HasMark(s)
    && (|s| >= 1 ==> s[|s| - 1] != 0xE2)
    && (|s| >= 2 ==> s[|s| - 2] != 0xE2 || s[|s| - 1] != 0x96)
  }

  lemma ValidPlainLooks(s: seq<Byte>)
    requires Utf8.Valid(s) && !HasMark(s)
    ensures TailLike(s) && HeadLike(s)
  {
    if |s| >= 1 && s[|s| - 1] == 0xE2 {
      Utf8.LeadHasRoom(s, |s| - 1);
    }
    if |s| >= 2 && s[|s| - 2] == 0xE2 {
      Utf8.LeadHasRoom(s, |s| - 2);
    }
    Utf8.ValidStart(s);
  }

  /** A mark-free end of the shown text ends the raw text itself. */
  lemma {:induction false} PlainEndOfShown(t: seq<Byte>, s: seq<Byte>)
    requires TailLike(s) && EndsWith(Replaced(t), s)
    ensures EndsWith(t, s)
    decreases |t|
  {
    if s != [] && t != [] {
      hide EndsWith, TailLike;
      var n, b := |t| - 1, t[|t| - 1];
      assert t == t[..n] + [b];
      LastByteShown(t[..n], b);
      if b == SPACE {
        MarkTail(Replaced(t[..n]), s);
      } else {
        TailShrinks(Replaced(t[..n]), b, s);
        PlainEndOfShown(t[..n], s[..|s| - 1]);
        TailGrows(t[..n], b, s);
      }
    }
  }

  lemma TailShrinks(before: seq<Byte>, b: Byte, s: seq<Byte>)
    requires s != [] && TailLike(s) && EndsWith(before + [b], s)
    ensures TailLike(s[..|s| - 1]) && EndsWith(before, s[..|s| - 1]) && s[|s| - 1] == b
  {
    var all, s' := before + [b], s[..|s| - 1];
    assert all[|all| - |s|..][|s| - 1] == b;
    assert all[|all| - |s|..][..|s| - 1] == before[|before| - |s'|..];
    assert forall i :: 0 <= i < |s'| && MarkAt(s', i) ==> MarkAt(s, i);
  }

  lemma TailGrows(before: seq<Byte>, b: Byte, s: seq<Byte>)
    requires s != [] && EndsWith(before, s[..|s| - 1]) && s[|s| - 1] == b
    ensures EndsWith(before + [b], s)
  {
  }

  /** What ends like a mark and starts a character is empty or has the mark. */
  lemma MarkTail(before: seq<Byte>, s: seq<Byte>)
    requires (s != [] ==> !Utf8.Continuation(s[0])) && EndsWith(before + MARK, s)
    ensures s == [] || HasMark(s)
  {
    var all := before + MARK;
    assert forall k :: 0 <= k < |s| ==> s[k] == all[|all| - |s| + k];
    if |s| >= 3 {
      assert MarkAt(s, |s| - 3);
    }
  }

  /** What starts like a mark and does not break off inside it is empty or has the mark. */
  lemma MarkHead(after: seq<Byte>, s: seq<Byte>)
    requires s <= MARK + after
    requires |s| >= 1 ==> s[|s| - 1] != 0xE2
    requires |s| >= 2 ==> s[|s| - 2] != 0xE2 || s[|s| - 1] != 0x96
    ensures s == [] || HasMark(s)
  {
    var all := MARK + after;
    assert forall k :: 0 <= k < |s| ==> s[k] == all[k];
    if |s| >= 3 {
      assert MarkAt(s, 0);
    }
  }

  lemma HeadShrinks(b: Byte, after: seq<Byte>, s: seq<Byte>)
    requires s != [] && HeadLike(s) && s <= [b] + after
    ensures s[0] == b && HeadLike(s[1..]) && s[1..] <= after
  {
    var s', all := s[1..], [b] + after;
    assert s[0] == all[0];
    assert forall i :: 0 <= i < |s'| && MarkAt(s', i) ==> MarkAt(s, i + 1);
    assert s' == all[1..][..|s'|];
  }

  lemma TailEndsInMark(t: seq<Byte>, s: seq<Byte>)
    requires EndsWith(t, s)
    ensures EndsInMark(s) ==> EndsInMark(t)
  {
    assert forall k :: 0 <= k < |s| ==> s[k] == t[|t| - |s| + k];
  }

  lemma LastByteShown(u: seq<Byte>, b: Byte)
    ensures Replaced(u + [b]) == Replaced(u) + ShownByte(b)
  {
    ReplacedConcat(u, [b]);
    ReplacedOne(b);
  }

  lemma ReplacedOne(b: Byte)
    ensures Replaced([b]) == ShownByte(b)
  {
    var one: seq<Byte> := [b];
    assert one[1..] == [];
  }

  /** The last byte of shown text is the raw text's own, unless it is a space that shows it. */
  lemma PeelShown(u: seq<Byte>, c: Byte, shown: seq<Byte>, b: Byte)
    requires Replaced(u + [c]) == shown + [b] && (b == 0x81 ==> c != SPACE)
    ensures c == b && Replaced(u) == shown
  {
    hide Replaced;
    LastByteShown(u, c);
    LastOfAppended(Replaced(u), ShownByte(c), shown, b);
  }

  lemma LastOfAppended(a: seq<Byte>, y: seq<Byte>, s: seq<Byte>, b: Byte)
    requires y != [] && a + y == s + [b]
    ensures y[|y| - 1] == b && (|y| == 1 ==> a == s)
  {
    assert (a + y)[|s|] == b;
    assert (a + y)[..|s|] == s;
  }

  lemma Unappend(t: seq<Byte>) returns (u: seq<Byte>, c: Byte)
    requires t != []
    ensures t == u + [c]
  {
    u, c := t[..|t| - 1], t[|t| - 1];
  }

  lemma ShownNotEmpty(t: seq<Byte>)
    requires Replaced(t) != []
    ensures t != []
  {
  }

  lemma EndsInMarkParts(w: seq<Byte>, a: Byte, b: Byte, c: Byte)
    ensures EndsInMark(w + [a] + [b] + [c]) <==> a == 0xE2 && b == 0x96 && c == 0x81
  {
  }

  /** Shown text ends in a mark only where the raw text ends in a mark or a space. */
  lemma MarkEndsShown(t: seq<Byte>)
    ensures EndsInMark(Replaced(t)) ==> EndsInMark(t) || (t != [] && t[|t| - 1] == SPACE)
  {
    if EndsInMark(Replaced(t)) && t[|t| - 1] != SPACE {
      var s, s2 := Unappend(Replaced(t));
      var s', s1 := Unappend(s);
      var w, s0 := Unappend(s');
      hide EndsInMark, MarkAt, Replaced;
      EndsInMarkParts(w, s0, s1, s2);
      EndsInMarkShown(t, w);
    }
  }

  lemma EndsInMarkShown(t: seq<Byte>, w: seq<Byte>)
    requires Replaced(t) == w + [0xE2] + [0x96] + [0x81] && t != [] && t[|t| - 1] != SPACE
    ensures EndsInMark(t)
  {
    hide EndsInMark, MarkAt, Replaced;
    var u, c2 := Unappend(t);
    PeelShown(u, c2, w + [0xE2] + [0x96], 0x81);
    ShownNotEmpty(u);
    var u', c1 := Unappend(u);
    PeelShown(u', c1, w + [0xE2], 0x96);
    ShownNotEmpty(u');
    var u'', c0 := Unappend(u');
    PeelShown(u'', c0, w, 0xE2);
    EndsInMarkParts(u'', c0, c1, c2);
  }

  /** A mark-free start of the shown text starts the raw text itself. */
  lemma {:induction false} PlainStartOfShown(t: seq<Byte>, s: seq<Byte>)
    requires HeadLike(s) && s <= Replaced(t)
    ensures s <= t
    decreases |t|
  {
    if s != [] && t != [] {
      hide HeadLike, HasMark;
      var b, rest := t[0], t[1..];
      assert Replaced(t) == ShownByte(b) + Replaced(rest);
      if b == SPACE {
        HeadLikeIs(s);
        MarkHead(Replaced(rest), s);
      } else {
        HeadShrinks(b, Replaced(rest), s);
        PlainStartOfShown(rest, s[1..]);
        assert s == [b] + s[1..] && t == [b] + rest;
      }
    }
  }

  lemma HeadLikeIs(s: seq<Byte>)
    requires HeadLike(s)
    ensures !HasMark(s) && (|s| >= 1 ==> s[|s| - 1] != 0xE2) && (|s| >= 2 ==> s[|s| - 2] != 0xE2 || s[|s| - 1] != 0x96)
  {
  }
}
