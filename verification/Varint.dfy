/** Canonical LEB128 of 32-bit values. */
module Varint {
  import opened Prelude

  datatype VarintError = UnexpectedEnd | Overflow | NonCanonical

  const MAX_BYTES: nat := 5

  /** Seven bits a byte, low bits first, the top bit set on all but the last. */
  function Encoding(v: nat): (bytes: seq<Byte>)
    ensures bytes != []
  {
    if v < 0x80 then [v] else [0x80 + v % 0x80] + Encoding(v / 0x80)
  }

  function Pow128(k: nat): (p: nat)
    ensures p > 0
  {
    if k == 0 then 1 else 0x80 * Pow128(k - 1)
  }

  /** The number the low seven bits of the bytes spell. */
  function Low(bytes: seq<Byte>): nat {
    if bytes == [] then 0 else bytes[0] % 0x80 + 0x80 * Low(bytes[1..])
  }

  predicate Continues(b: Byte) {
    b >= 0x80
  }

  ghost predicate AllContinue(bytes: seq<Byte>) {
    forall i :: 0 <= i < |bytes| ==> Continues(bytes[i])
  }

  lemma {:induction false} LowGrows(bytes: seq<Byte>, b: Byte)
    ensures Low(bytes + [b]) == Low(bytes) + Pow128(|bytes|) * (b % 0x80)
  {
    if bytes == [] {
      assert [b][1..] == [];
    } else {
      assert (bytes + [b])[1..] == bytes[1..] + [b];
      LowGrows(bytes[1..], b);
      TimesAssociative(0x80, Pow128(|bytes| - 1), b % 0x80);
    }
  }

  lemma TimesAssociative(a: nat, b: nat, c: nat)
    ensures a * b * c == a * (b * c)
  {
  }

  /** Continuation bytes in front of an encoding make the encoding of the larger number. */
  lemma {:induction false} ContinuationsPrepend(bytes: seq<Byte>, u: nat)
    requires AllContinue(bytes) && (bytes != [] ==> u > 0)
    ensures Encoding(Low(bytes) + Pow128(|bytes|) * u) == bytes + Encoding(u)
  {
    if bytes == [] {
      assert bytes + Encoding(u) == Encoding(u);
    } else {
      hide Encoding;
      var first, rest := bytes[0], bytes[1..];
      ContinuationsPrepend(rest, u);
      ProductPositive(Pow128(|rest|), u);
      ShiftDistributes(first % 0x80, Low(rest), Pow128(|rest|), u);
      ContinuationPrepends(first, Low(rest) + Pow128(|rest|) * u);
      assert bytes + Encoding(u) == [first] + (rest + Encoding(u));
    }
  }

  lemma ShiftDistributes(b: nat, low: nat, p: nat, u: nat)
    ensures b + 0x80 * low + 0x80 * p * u == b + 0x80 * (low + p * u)
  {
    TimesAssociative(0x80, p, u);
  }

  lemma ContinuationPrepends(b: Byte, more: nat)
    requires Continues(b) && more > 0
    ensures Encoding(b % 0x80 + 0x80 * more) == [b] + Encoding(more)
  {
    var v := b % 0x80 + 0x80 * more;
    assert v / 0x80 == more && v % 0x80 == b % 0x80;
  }

  lemma ProductPositive(a: nat, b: nat)
    requires a > 0 && b > 0
    ensures a * b > 0
  {
  }

  /** No encoding is a proper prefix of another: a stream is cut in only one way. */
  lemma {:induction false} EncodingUnique(v: nat, w: nat, input: seq<Byte>)
    requires Encoding(v) <= input && Encoding(w) <= input
    ensures v == w
    decreases v
  {
    assert Encoding(v)[0] == input[0] == Encoding(w)[0];
    if v >= 0x80 {
      assert Encoding(v)[1..] == Encoding(v / 0x80) && Encoding(w)[1..] == Encoding(w / 0x80);
      EncodingUnique(v / 0x80, w / 0x80, input[1..]);
    }
  }

  /** The first bytes of an encoding continue, its last does not and is zero only for zero. */
  lemma {:induction false} EncodingShape(v: nat)
    ensures var e := Encoding(v);
            && AllContinue(e[..|e| - 1]) && !Continues(e[|e| - 1])
            && (|e| > 1 ==> e[|e| - 1] != 0)
            && v == Low(e)
  {
    if v >= 0x80 {
      EncodingShape(v / 0x80);
      var e, rest := Encoding(v), Encoding(v / 0x80);
      assert e[1..] == rest;
      assert forall i :: 0 < i < |e| ==> e[i] == rest[i - 1];
    } else {
      assert [v][1..] == [];
    }
  }

  lemma PowersOf128()
    ensures Pow128(1) == 0x80 && Pow128(2) == 0x4000 && Pow128(3) == 0x20_0000
    ensures Pow128(4) == 0x1000_0000 && Pow128(5) == 0x8_0000_0000
  {
  }

  lemma {:induction false} LowBound(bytes: seq<Byte>)
    ensures Low(bytes) < Pow128(|bytes|)
  {
    if bytes != [] {
      LowBound(bytes[1..]);
    }
  }

  /** A 32-bit value takes at most five bytes, the fifth below sixteen. */
  lemma ThirtyTwoBits(v: nat)
    requires v <= U32_MAX
    ensures |Encoding(v)| <= MAX_BYTES && (|Encoding(v)| == MAX_BYTES ==> Encoding(v)[4] < 0x10)
  {
    var v1 := v / 0x80;
    var v2 := v1 / 0x80;
    var v3 := v2 / 0x80;
    var v4 := v3 / 0x80;
    assert v4 < 0x10;
    if v4 > 0 {
      assert Encoding(v4) == [v4];
      assert Encoding(v3) == [0x80 + v3 % 0x80, v4];
      assert Encoding(v2) == [0x80 + v2 % 0x80, 0x80 + v3 % 0x80, v4];
      assert Encoding(v1) == [0x80 + v1 % 0x80, 0x80 + v2 % 0x80, 0x80 + v3 % 0x80, v4];
    }
  }

  /** Append the canonical encoding. */
  method EncodeU32(v: nat, output: seq<Byte>) returns (out: seq<Byte>)
    requires v <= U32_MAX
    ensures out == output + Encoding(v)
  {
    out := output;
    var value := v;
    while true
      invariant out + Encoding(value) == output + Encoding(v)
      decreases value
    {
      var byte := value % 0x80;
      var rest := value / 0x80;
      if rest == 0 {
        out := out + [byte];
        return;
      }
      assert out + Encoding(value) == out + [0x80 + byte] + Encoding(rest);
      out := out + [0x80 + byte];
      value := rest;
    }
  }

  // ------------------------------------------------------------------
  // Refused inputs
  // ------------------------------------------------------------------

  /** Fewer than five bytes, none of which ends a value. */
  ghost predicate Truncated(input: seq<Byte>) {
    |input| < MAX_BYTES && AllContinue(input)
  }

  /** More than 32 bits. */
  ghost predicate TooWide(input: seq<Byte>) {
    |input| >= MAX_BYTES && AllContinue(input[..4]) && input[4] >= 0x10
  }

  /** A value padded with a zero byte. */
  ghost predicate Padded(input: seq<Byte>) {
    exists k :: 0 < k < MAX_BYTES && EndsAt(input, k) && input[k] == 0
  }

  /** The first byte that does not continue is at `k`. */
  ghost predicate EndsAt(input: seq<Byte>, k: nat) {
    k < |input| && AllContinue(input[..k]) && !Continues(input[k])
  }

  lemma EndIsUnique(input: seq<Byte>, j: nat, k: nat)
    requires EndsAt(input, j) && EndsAt(input, k)
    ensures j == k
  {
    ContinueBelow(input, j);
    ContinueBelow(input, k);
  }

  lemma ContinueBelow(input: seq<Byte>, k: nat)
    requires k <= |input| && AllContinue(input[..k])
    ensures forall i :: 0 <= i < k ==> Continues(input[i])
  {
    forall i | 0 <= i < k
      ensures Continues(input[i])
    {
      assert input[..k][i] == input[i];
    }
  }

  /** Input that starts with a canonical 32-bit encoding has none of the defects. */
  lemma CanonicalIsSound(input: seq<Byte>)
    ensures forall v: nat :: v <= U32_MAX && Encoding(v) <= input ==>
              !Truncated(input) && !TooWide(input) && !Padded(input)
  {
    forall v: nat | v <= U32_MAX && Encoding(v) <= input
      ensures !Truncated(input) && !TooWide(input) && !Padded(input)
    {
      EncodingShape(v);
      ThirtyTwoBits(v);
      var e := Encoding(v);
      var n := |e| - 1;
      assert e[..n] == input[..n] && e[n] == input[n];
      assert EndsAt(input, n);
      forall k | 0 < k < MAX_BYTES && EndsAt(input, k)
        ensures input[k] != 0
      {
        EndIsUnique(input, k, n);
      }
      assert |input| >= MAX_BYTES && n < 4 ==> input[..4][n] == input[n];
    }
  }

  /** When a value ends within the limit, only padding can spoil it. */
  lemma EndedDefects(input: seq<Byte>, k: nat)
    requires k < MAX_BYTES && EndsAt(input, k) && (k == 4 ==> input[4] < 0x10)
    ensures !Truncated(input) && !TooWide(input)
    ensures Padded(input) <==> k > 0 && input[k] == 0
  {
    forall j | 0 < j < MAX_BYTES && EndsAt(input, j)
      ensures j == k
    {
      EndIsUnique(input, j, k);
    }
    assert |input| >= MAX_BYTES && k < 4 ==> input[..4][k] == input[k];
  }

  /** Without an ending byte there is no padding. */
  lemma UnendedDefects(input: seq<Byte>, k: nat)
    requires k <= |input| && AllContinue(input[..k]) && k < MAX_BYTES
    requires k == |input| || k == 4
    ensures Truncated(input) <==> k == |input| && k < MAX_BYTES
    ensures TooWide(input) <==> k == 4 && k < |input| && input[4] >= 0x10
    ensures k == |input| || input[4] >= 0x10 ==> !Padded(input)
  {
    ContinueBelow(input, k);
    assert k == |input| ==> input[..k] == input;
  }

  /** What the bytes before an unpadded end spell. */
  lemma EndedSpells(input: seq<Byte>, k: nat)
    requires k < MAX_BYTES && EndsAt(input, k) && (k == 4 ==> input[4] < 0x10) && (k > 0 ==> input[k] != 0)
    ensures var v := Low(input[..k + 1]); v <= U32_MAX && Encoding(v) == input[..k + 1]
    ensures forall v: nat :: Encoding(v) <= input ==> v == Low(input[..k + 1])
  {
    var bytes, b := input[..k], input[k];
    assert input[..k + 1] == bytes + [b];
    LowGrows(bytes, b);
    ContinuationsPrepend(bytes, b);
    assert Encoding(b) == [b];
    hide Encoding;
    var v := Low(input[..k + 1]);
    EndedFits(bytes, b);
    forall w: nat | Encoding(w) <= input
      ensures w == v
    {
      EncodingUnique(w, v, input);
    }
  }

  lemma EndedFits(bytes: seq<Byte>, b: Byte)
    requires |bytes| <= 4 && b < 0x80 && (|bytes| == 4 ==> b < 0x10)
    ensures Low(bytes + [b]) <= U32_MAX
  {
    hide Low, Pow128;
    PowersOf128();
    LowGrows(bytes, b);
    LowBound(bytes);
    if |bytes| < 4 {
      LowBound(bytes + [b]);
      PowerGrows(|bytes| + 1, 4);
    }
  }

  lemma {:induction false} PowerGrows(j: nat, k: nat)
    requires j <= k
    ensures Pow128(j) <= Pow128(k)
    decreases k
  {
    if j < k {
      PowerGrows(j, k - 1);
    }
  }

  /**
   Decode one value from the front of `input`. It is accepted exactly when a canonical
   32-bit encoding starts there, and then that value and the bytes it took are returned;
   each refusal has exactly one cause.
   */
  method DecodeU32(input: seq<Byte>) returns (r: Result<(nat, nat), VarintError>)
    ensures r.Ok? ==> r.value.0 <= U32_MAX && r.value.1 <= |input| && input[..r.value.1] == Encoding(r.value.0)
    ensures forall v: nat :: v <= U32_MAX && Encoding(v) <= input ==> r == Ok((v, |Encoding(v)|))
    ensures r == Err(UnexpectedEnd) <==> Truncated(input)
    ensures r == Err(Overflow) <==> TooWide(input)
    ensures r == Err(NonCanonical) <==> Padded(input)
  {
    hide Encoding, Low, Truncated, TooWide, Padded;
    CanonicalIsSound(input);
    assert input[..0] == [];
    LowOfNothing();
    var value := 0;
    for index := 0 to MAX_BYTES
      invariant index <= |input| && AllContinue(input[..index]) && value == Low(input[..index])
      invariant index == MAX_BYTES ==> input[4] < 0x10
    {
      if index >= |input| {
        UnendedDefects(input, index);
        return Err(UnexpectedEnd);
      }
      var byte := input[index];
      if index == 4 && byte >= 0x10 {
        UnendedDefects(input, index);
        return Err(Overflow);
      }
      assert input[..index + 1] == input[..index] + [byte];
      LowGrows(input[..index], byte);
      value := value + Pow128(index) * (byte % 0x80);
      if byte < 0x80 {
        EndedDefects(input, index);
        if index > 0 && byte == 0 {
          return Err(NonCanonical);
        }
        EndedSpells(input, index);
        return Ok((value, index + 1));
      }
    }
    assert false;
  }

  lemma LowOfNothing()
    ensures Low([]) == 0
  {
  }

  /** Decoding what was encoded gives the value back, whatever follows. */
  method RoundTrip(v: nat, suffix: seq<Byte>) returns (r: Result<(nat, nat), VarintError>)
    requires v <= U32_MAX
    ensures r == Ok((v, |Encoding(v)|))
  {
    var code := EncodeU32(v, []);
    assert code == Encoding(v);
    r := DecodeU32(code + suffix);
  }
}
