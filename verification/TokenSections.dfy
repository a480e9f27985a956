/**
 The LENGTHS and ARENA sections of a token file: how the converter emits them, what
 the reader accepts, and the iterator that walks them.
 */
module TokenSections {
  import opened Prelude
  import opened Varint

  /** The bytes of a slot; an unused one has none. */
  function SlotBytes(slot: Option<seq<Byte>>): seq<Byte> {
    if slot.Some? then slot.value else []
  }

  function Tokens(slots: seq<Option<seq<Byte>>>): (ts: seq<seq<Byte>>)
    ensures |ts| == |slots| && forall i :: 0 <= i < |slots| ==> ts[i] == SlotBytes(slots[i])
  {
    seq(|slots|, i requires 0 <= i < |slots| => SlotBytes(slots[i]))
  }

  /** The encoded lengths, in id order. */
  function Lengths(ts: seq<seq<Byte>>): seq<Byte> {
    if ts == [] then [] else Encoding(|ts[0]|) + Lengths(ts[1..])
  }

  /** All token bytes, in id order. */
  function Arena(ts: seq<seq<Byte>>): seq<Byte> {
    if ts == [] then [] else ts[0] + Arena(ts[1..])
  }

  /** The longest token. */
  function Longest(ts: seq<seq<Byte>>): (n: nat)
    ensures forall i :: 0 <= i < |ts| ==> |ts[i]| <= n
    ensures n == 0 || exists i :: 0 <= i < |ts| && |ts[i]| == n
  {
    if ts == [] then 0
    else
      var rest := Longest(ts[..|ts| - 1]);
      if rest < |ts[|ts| - 1]| then |ts[|ts| - 1]| else rest
  }

  lemma {:induction false} SectionsConcat(a: seq<seq<Byte>>, b: seq<seq<Byte>>)
    ensures Lengths(a + b) == Lengths(a) + Lengths(b) && Arena(a + b) == Arena(a) + Arena(b)
  {
    if a == [] {
      assert a + b == b;
    } else {
      assert (a + b)[1..] == a[1..] + b;
      SectionsConcat(a[1..], b);
      ConcatAssociative(Encoding(|a[0]|), Lengths(a[1..]), Lengths(b));
      ConcatAssociative(a[0], Arena(a[1..]), Arena(b));
    }
  }

  lemma ConcatAssociative(x: seq<Byte>, y: seq<Byte>, z: seq<Byte>)
    ensures x + y + z == x + (y + z)
  {
  }

  lemma SectionsAppend(ts: seq<seq<Byte>>, k: nat)
    requires k < |ts|
    ensures Lengths(ts[..k + 1]) == Lengths(ts[..k]) + Encoding(|ts[k]|)
    ensures Arena(ts[..k + 1]) == Arena(ts[..k]) + ts[k]
    ensures Longest(ts[..k + 1]) == if Longest(ts[..k]) < |ts[k]| then |ts[k]| else Longest(ts[..k])
  {
    var one: seq<seq<Byte>> := [ts[k]];
    assert ts[..k + 1] == ts[..k] + one;
    SectionsConcat(ts[..k], one);
    assert one[1..] == [];
    assert Lengths(one) == Encoding(|ts[k]|) && Arena(one) == ts[k];
    assert ts[..k + 1][..k] == ts[..k];
  }

  /** The remainder of the sections from token `k` on. */
  lemma SectionsFrom(ts: seq<seq<Byte>>, k: nat)
    requires k < |ts|
    ensures Lengths(ts[k..]) == Encoding(|ts[k]|) + Lengths(ts[k + 1..])
    ensures Arena(ts) == Arena(ts[..k]) + ts[k] + Arena(ts[k + 1..])
  {
    assert ts[k..][1..] == ts[k + 1..];
    assert ts == ts[..k] + ts[k..];
    SectionsConcat(ts[..k], ts[k..]);
    ConcatAssociative(Arena(ts[..k]), ts[k], Arena(ts[k + 1..]));
  }

  // ------------------------------------------------------------------
  // Emission
  // ------------------------------------------------------------------

  /** A used slot adds its length and its bytes; an unused one adds the single byte 0 to the lengths only. */
  lemma SlotAdds(slots: seq<Option<seq<Byte>>>, k: nat)
    requires k < |slots|
    ensures slots[k].None? ==>
              && Lengths(Tokens(slots[..k + 1])) == Lengths(Tokens(slots[..k])) + [0]
              && Arena(Tokens(slots[..k + 1])) == Arena(Tokens(slots[..k]))
    ensures slots[k].Some? ==>
              && Lengths(Tokens(slots[..k + 1])) == Lengths(Tokens(slots[..k])) + Encoding(|slots[k].value|)
              && Arena(Tokens(slots[..k + 1])) == Arena(Tokens(slots[..k])) + slots[k].value
  {
    var ts := Tokens(slots);
    assert Tokens(slots[..k + 1]) == ts[..k + 1] && Tokens(slots[..k]) == ts[..k];
    SectionsAppend(ts, k);
  }

  datatype SectionError =
    | SizeOverflow
    | BadVarint(index: nat, error: VarintError)
    | ArenaOffsetOverflow
    | ArenaIndexOutOfBounds(id: nat, offset: nat, length: nat, arenaLength: nat)
    | SectionLengthMismatch
    | LengthSumMismatch(expected: nat, actual: nat)
    | OmegaMismatch(expected: nat, actual: nat)
    | SpecialBytesMismatch(id: nat)

  datatype Sections = Sections(lengths: seq<Byte>, arena: seq<Byte>, omega: nat)

  /** Emit every slot's length and bytes; only a token longer than 32 bits can count is refused. */
  method Emit(slots: seq<Option<seq<Byte>>>) returns (r: Result<Sections, SectionError>)
    ensures r.Ok? <==> Longest(Tokens(slots)) <= U32_MAX
    ensures r.Ok? ==> r.value == Sections(Lengths(Tokens(slots)), Arena(Tokens(slots)), Longest(Tokens(slots)))
    ensures forall i :: 0 <= i < |slots| ==> Tokens(slots)[i] == if slots[i].Some? then slots[i].value else []
    ensures r.Err? ==> r.error.SizeOverflow?
  {
    hide Lengths, Arena, Encoding, Longest;
    ghost var ts := Tokens(slots);
    NothingEmitted();
    assert ts[..0] == [];
    var lengths: seq<Byte>, arena: seq<Byte>, omega := [], [], 0;
    for k := 0 to |slots|
      invariant lengths == Lengths(ts[..k]) && arena == Arena(ts[..k]) && omega == Longest(ts[..k]) <= U32_MAX
    {
      SectionsAppend(ts, k);
      var token := SlotBytes(slots[k]);
      if |token| > U32_MAX {
        return Err(SizeOverflow);
      }
      lengths := EncodeU32(|token|, lengths);
      arena := arena + token;
      omega := if omega < |token| then |token| else omega;
    }
    assert ts[..|slots|] == ts;
    r := Ok(Sections(lengths, arena, omega));
  }

  lemma NothingEmitted()
    ensures Lengths([]) == [] && Arena([]) == [] && Longest([]) == 0
  {
  }

  // ------------------------------------------------------------------
  // Uniqueness: sections determine their tokens
  // ------------------------------------------------------------------

  /** The sections of `n` tokens. */
  ghost predicate SectionsOf(ts: seq<seq<Byte>>, n: nat, lengths: seq<Byte>, arena: seq<Byte>) {
    |ts| == n && lengths == Lengths(ts) && arena == Arena(ts) && Longest(ts) <= U32_MAX
  }

  /** A run of tokens that starts the lengths of another is a prefix of it in length. */
  lemma {:induction false} LengthsUnique(ts: seq<seq<Byte>>, us: seq<seq<Byte>>, rest: seq<Byte>)
    requires Lengths(ts) == Lengths(us) + rest && |us| <= |ts|
    ensures forall k :: 0 <= k < |us| ==> |us[k]| == |ts[k]|
    ensures rest == Lengths(ts[|us|..])
    decreases |us|
  {
    if us != [] {
      FirstLength(ts, us, rest);
      hide Lengths, Encoding;
      LengthsUnique(ts[1..], us[1..], rest);
      assert ts[1..][|us| - 1..] == ts[|us|..];
    }
  }

  /** Equal streams start with the same length. */
  lemma FirstLength(ts: seq<seq<Byte>>, us: seq<seq<Byte>>, rest: seq<Byte>)
    requires us != [] && ts != [] && Lengths(ts) == Lengths(us) + rest
    ensures |ts[0]| == |us[0]| && Lengths(ts[1..]) == Lengths(us[1..]) + rest
  {
    var a, x, b, y := Encoding(|ts[0]|), Lengths(ts[1..]), Encoding(|us[0]|), Lengths(us[1..]);
    assert a + x == b + y + rest;
    hide Encoding, Lengths;
    ConcatAssociative(b, y, rest);
    PrefixOfConcat(a, x);
    PrefixOfConcat(b, y + rest);
    EncodingUnique(|ts[0]|, |us[0]|, a + x);
  }

  lemma PrefixOfConcat(x: seq<Byte>, y: seq<Byte>)
    ensures x <= x + y && (x + y)[|x|..] == y
  {
  }

  lemma {:induction false} ArenaSize(ts: seq<seq<Byte>>, us: seq<seq<Byte>>)
    requires |us| <= |ts| && forall k :: 0 <= k < |us| ==> |us[k]| == |ts[k]|
    ensures |Arena(us)| <= |Arena(ts)|
    ensures |us| == |ts| ==> |Arena(us)| == |Arena(ts)|
    decreases |us|
  {
    if us != [] {
      ArenaSize(ts[1..], us[1..]);
    }
  }

  lemma {:induction false} LongestIsLongest(ts: seq<seq<Byte>>, us: seq<seq<Byte>>)
    requires |us| == |ts| && forall k :: 0 <= k < |us| ==> |us[k]| == |ts[k]|
    ensures Longest(us) == Longest(ts)
    decreases |us|
  {
    if us != [] {
      LongestIsLongest(ts[..|ts| - 1], us[..|us| - 1]);
    }
  }

  /** Two token lists with the same sections are the same list. */
  lemma {:induction false} SectionsUnique(ts: seq<seq<Byte>>, us: seq<seq<Byte>>)
    requires |ts| == |us| && Lengths(ts) == Lengths(us) && Arena(ts) == Arena(us)
    ensures ts == us
  {
    if ts != [] {
      hide Encoding;
      var input := Lengths(ts);
      var a, b := Encoding(|ts[0]|), Encoding(|us[0]|);
      assert a <= input && b <= input;
      EncodingUnique(|ts[0]|, |us[0]|, input);
      assert input[|a|..] == Lengths(ts[1..]) == Lengths(us[1..]);
      var n, arena := |ts[0]|, Arena(ts);
      assert ts[0] == arena[..n] == us[0];
      assert Arena(ts[1..]) == arena[n..] == Arena(us[1..]);
      SectionsUnique(ts[1..], us[1..]);
      assert ts == [ts[0]] + ts[1..] && us == [us[0]] + us[1..];
    }
  }

  // ------------------------------------------------------------------
  // Validation
  // ------------------------------------------------------------------

  /** What has been read so far: `read` are the first tokens, cut from the arena. */
  ghost predicate Reading(read: seq<seq<Byte>>, id: nat, section: seq<Byte>, remaining: seq<Byte>, arena: seq<Byte>,
                          sum: nat, omega: nat) {
    && |read| == id && section == Lengths(read) + remaining && sum <= |arena|
    && Arena(read) == arena[..sum] && omega == Longest(read) <= U32_MAX && sum <= U32_MAX
  }

  /** Any tokens with these sections agree with what was read, and continue it. */
  lemma ReadingAgrees(read: seq<seq<Byte>>, id: nat, section: seq<Byte>, remaining: seq<Byte>, arena: seq<Byte>,
                      sum: nat, omega: nat, n: nat)
    requires Reading(read, id, section, remaining, arena, sum, omega) && id <= n
    ensures forall ts :: SectionsOf(ts, n, section, arena) ==>
              remaining == Lengths(ts[id..]) && sum == |Arena(ts[..id])| && omega == Longest(ts[..id])
  {
    hide Lengths, Arena, Longest;
    forall ts | SectionsOf(ts, n, section, arena)
      ensures remaining == Lengths(ts[id..]) && sum == |Arena(ts[..id])| && omega == Longest(ts[..id])
    {
      LengthsUnique(ts, read, remaining);
      ArenaSize(ts[..id], read);
      LongestIsLongest(ts[..id], read);
    }
  }

  /** When the next length cannot be read, or points past the arena, no tokens have these sections. */
  lemma NextIsThere(read: seq<seq<Byte>>, id: nat, section: seq<Byte>, remaining: seq<Byte>, arena: seq<Byte>,
                    sum: nat, omega: nat, n: nat)
    requires Reading(read, id, section, remaining, arena, sum, omega) && id < n
    ensures forall ts :: SectionsOf(ts, n, section, arena) ==>
              |ts[id]| <= U32_MAX && Encoding(|ts[id]|) <= remaining && sum + |ts[id]| <= |arena|
  {
    hide Lengths, Arena, Longest, Reading, Encoding;
    ReadingAgrees(read, id, section, remaining, arena, sum, omega, n);
    forall ts | SectionsOf(ts, n, section, arena)
      ensures |ts[id]| <= U32_MAX && Encoding(|ts[id]|) <= remaining && sum + |ts[id]| <= |arena|
    {
      SectionsFrom(ts, id);
    }
  }

  lemma ReadOne(read: seq<seq<Byte>>, id: nat, section: seq<Byte>, remaining: seq<Byte>, arena: seq<Byte>, sum: nat,
                omega: nat, length: nat)
    requires Reading(read, id, section, remaining, arena, sum, omega)
    requires length <= U32_MAX && Encoding(length) <= remaining && sum + length <= |arena| && sum + length <= U32_MAX
    ensures Reading(read + [arena[sum..sum + length]], id + 1, section, remaining[|Encoding(length)|..], arena,
                    sum + length, if omega < length then length else omega)
  {
    hide Lengths, Arena, Longest, Encoding;
    var token := arena[sum..sum + length];
    var more, code := read + [token], Encoding(length);
    SectionsAppend(more, id);
    assert more[..id + 1] == more && more[..id] == read;
    assert remaining == code + remaining[|code|..];
    ConcatAssociative(Lengths(read), code, remaining[|code|..]);
    assert arena[..sum + length] == arena[..sum] + token;
  }

  /** A special token: its id and bytes. */
  datatype Special = Special(id: nat, token: seq<Byte>)

  /** Special tokens as the reader hands them on: by increasing id. */
  ghost predicate Ascending(specials: seq<Special>) {
    forall i, j :: 0 <= i < j < |specials| ==> specials[i].id < specials[j].id
  }

  /** Every special token below `n` has its own bytes in the sections. */
  ghost predicate SpecialsAgree(ts: seq<seq<Byte>>, specials: seq<Special>, n: nat) {
    forall i :: 0 <= i < |specials| && specials[i].id < n ==>
      specials[i].id < |ts| && ts[specials[i].id] == specials[i].token
  }

  /** The specials before `next` are those below `id`. */
  ghost predicate SpecialsRead(read: seq<seq<Byte>>, specials: seq<Special>, next: nat, id: nat) {
    && next <= |specials| && SpecialsAgree(read, specials, id)
    && (forall i :: 0 <= i < next ==> specials[i].id < id)
    && (forall i :: next <= i < |specials| ==> id <= specials[i].id)
  }

  /** Tokens with these sections start with what was read. */
  lemma ReadingIs(read: seq<seq<Byte>>, id: nat, section: seq<Byte>, remaining: seq<Byte>, arena: seq<Byte>, sum: nat,
                  omega: nat, n: nat)
    requires Reading(read, id, section, remaining, arena, sum, omega) && id <= n
    ensures forall ts :: SectionsOf(ts, n, section, arena) ==> ts[..id] == read
  {
    hide Lengths, Arena, Longest;
    ReadingAgrees(read, id, section, remaining, arena, sum, omega, n);
    forall ts | SectionsOf(ts, n, section, arena)
      ensures ts[..id] == read
    {
      LengthsUnique(ts, read, remaining);
      SameLengths(ts[..id], read);
      assert ts == ts[..id] + ts[id..];
      SectionsConcat(ts[..id], ts[id..]);
      assert Arena(ts[..id]) == arena[..sum];
      SectionsUnique(ts[..id], read);
    }
  }

  lemma {:induction false} SameLengths(ts: seq<seq<Byte>>, us: seq<seq<Byte>>)
    requires |ts| == |us| && forall k :: 0 <= k < |us| ==> |us[k]| == |ts[k]|
    ensures Lengths(ts) == Lengths(us)
  {
    if ts != [] {
      SameLengths(ts[1..], us[1..]);
    }
  }

  /** Compare the special token of `id`, if there is one, with the bytes just read. */
  method CheckSpecials(specials: seq<Special>, start: nat, id: nat, token: seq<Byte>, ghost read: seq<seq<Byte>>)
    returns (ok: bool, next: nat)
    requires Ascending(specials) && |read| == id && SpecialsRead(read, specials, start, id)
    ensures ok ==> SpecialsRead(read + [token], specials, next, id + 1)
    ensures !ok ==> exists i :: 0 <= i < |specials| && specials[i].id == id && specials[i].token != token
  {
    next := start;
    while next < |specials| && specials[next].id == id
      invariant start <= next <= |specials|
      invariant forall i :: start <= i < next ==> specials[i].id == id && specials[i].token == token
    {
      if |specials[next].token| != |token| || specials[next].token != token {
        return false, next;
      }
      next := next + 1;
    }
    ok := true;
  }

  /** A special token that differs from the bytes read rules out all tokens with these sections. */
  lemma MismatchIsFinal(read: seq<seq<Byte>>, id: nat, section: seq<Byte>, arena: seq<Byte>, specials: seq<Special>,
                        n: nat)
    requires |read| == id + 1 && id < n && forall ts :: SectionsOf(ts, n, section, arena) ==> ts[..id + 1] == read
    requires exists i :: 0 <= i < |specials| && specials[i].id == id && specials[i].token != read[id]
    ensures forall ts :: SectionsOf(ts, n, section, arena) ==> !SpecialsAgree(ts, specials, n)
  {
    hide Lengths, Arena, Longest;
    forall ts | SectionsOf(ts, n, section, arena)
      ensures !SpecialsAgree(ts, specials, n)
    {
      assert ts[id] == ts[..id + 1][id];
    }
  }

  /**
   Check the two sections against each other, the special tokens and the header. They are
   accepted exactly when they are the sections of some list of tokens with the header's
   count and longest length, in which every special token has its own bytes, and an arena
   whose offsets fit 32 bits.
   */
  method ValidateLengths(section: seq<Byte>, arena: seq<Byte>, specials: seq<Special>, vocabSize: nat, headerOmega: nat)
    returns (r: Result<(), SectionError>, ghost read: seq<seq<Byte>>)
    requires Ascending(specials) && forall i :: 0 <= i < |specials| ==> specials[i].id < vocabSize
    ensures r.Ok? <==> |arena| <= U32_MAX && exists ts ::
                         SectionsOf(ts, vocabSize, section, arena) && Longest(ts) == headerOmega
                         && SpecialsAgree(ts, specials, vocabSize)
    ensures r.Ok? ==> SectionsOf(read, vocabSize, section, arena)
  {
    hide Lengths, Arena, Longest, Encoding, Reading, SpecialsRead;
    NothingEmitted();
    var remaining, sum: nat, omega: nat, special: nat := section, 0, 0, 0;
    read := [];
    ReadNothing(section, arena);
    NoSpecialsYet(specials);
    for id := 0 to vocabSize
      invariant |read| == id && Reading(read, id, section, remaining, arena, sum, omega)
      invariant SpecialsRead(read, specials, special, id)
    {
      NextIsThere(read, id, section, remaining, arena, sum, omega, vocabSize);
      var next := DecodeU32(remaining);
      if next.Err? {
        return Err(BadVarint(id, next.error)), [];
      }
      var length, consumed := next.value.0, next.value.1;
      LengthIsNext(section, arena, vocabSize, id, remaining, length);
      if sum + length > U32_MAX {
        return Err(ArenaOffsetOverflow), [];
      }
      if sum + length > |arena| {
        return Err(ArenaIndexOutOfBounds(id, sum, length, |arena|)), [];
      }
      ReadOne(read, id, section, remaining, arena, sum, omega, length);
      var token := arena[sum..sum + length];
      remaining, sum, omega := remaining[consumed..], sum + length, if omega < length then length else omega;
      ReadingIs(read + [token], id + 1, section, remaining, arena, sum, omega, vocabSize);
      var ok;
      ok, special := CheckSpecials(specials, special, id, token, read);
      read := read + [token];
      if !ok {
        MismatchIsFinal(read, id, section, arena, specials, vocabSize);
        return Err(SpecialBytesMismatch(id)), [];
      }
    }
    SpecialsEnd(read, specials, special, vocabSize);
    ReadingIs(read, vocabSize, section, remaining, arena, sum, omega, vocabSize);
    ReadingAgrees(read, vocabSize, section, remaining, arena, sum, omega, vocabSize);
    ReadAll(read, section, remaining, arena, sum, omega, vocabSize);
    if remaining != [] {
      return Err(SectionLengthMismatch), [];
    }
    if sum != |arena| {
      return Err(LengthSumMismatch(|arena|, sum)), [];
    }
    if omega != headerOmega {
      return Err(OmegaMismatch(omega, headerOmega)), [];
    }
    r := Ok(());
  }

  lemma NoSpecialsYet(specials: seq<Special>)
    ensures SpecialsRead([], specials, 0, 0)
  {
  }

  lemma SpecialsEnd(read: seq<seq<Byte>>, specials: seq<Special>, next: nat, n: nat)
    requires SpecialsRead(read, specials, next, n)
    ensures SpecialsAgree(read, specials, n)
  {
  }

  lemma ReadNothing(section: seq<Byte>, arena: seq<Byte>)
    ensures Reading([], 0, section, section, arena, 0, 0)
  {
  }

  /** The decoded length is the only one tokens with these sections can have next. */
  lemma LengthIsNext(section: seq<Byte>, arena: seq<Byte>, n: nat, id: nat, remaining: seq<Byte>, length: nat)
    requires id < n && Encoding(length) <= remaining
    requires forall ts :: SectionsOf(ts, n, section, arena) ==> |ts[id]| <= U32_MAX && Encoding(|ts[id]|) <= remaining
    ensures forall ts :: SectionsOf(ts, n, section, arena) ==> |ts[id]| == length
  {
    hide Lengths, Arena, Longest, Encoding;
    forall ts | SectionsOf(ts, n, section, arena)
      ensures |ts[id]| == length
    {
      EncodingUnique(|ts[id]|, length, remaining);
    }
  }

  /** At the end, tokens with these sections leave nothing over and are what was read. */
  lemma ReadAll(read: seq<seq<Byte>>, section: seq<Byte>, remaining: seq<Byte>, arena: seq<Byte>, sum: nat,
                omega: nat, n: nat)
    requires Reading(read, n, section, remaining, arena, sum, omega)
    ensures forall ts :: SectionsOf(ts, n, section, arena) ==>
              remaining == [] && sum == |arena| && omega == Longest(ts)
    ensures remaining == [] && sum == |arena| ==>
              SectionsOf(read, n, section, arena) && Longest(read) == omega && |arena| <= U32_MAX
  {
    hide Lengths, Arena, Longest;
    ReadingAgrees(read, n, section, remaining, arena, sum, omega, n);
    NothingEmitted();
    forall ts | SectionsOf(ts, n, section, arena)
      ensures remaining == [] && sum == |arena| && omega == Longest(ts)
    {
      assert ts[n..] == [] && ts[..n] == ts;
    }
    assert remaining == [] ==> Lengths(read) + remaining == Lengths(read);
    assert sum == |arena| ==> arena[..sum] == arena;
  }

  // ------------------------------------------------------------------
  // Iteration
  // ------------------------------------------------------------------

  /** Walks validated lengths. */
  class LengthIter {
    var remaining: seq<Byte>
    var remainingCount: nat

    constructor (section: seq<Byte>, vocabSize: nat)
      ensures remaining == section && remainingCount == vocabSize
    {
      remaining, remainingCount := section, vocabSize;
    }

    /** Standing before token `i` of `ts`. */
    ghost predicate At(ts: seq<seq<Byte>>, i: nat)
      reads this
    {
      i <= |ts| && remaining == Lengths(ts[i..]) && remainingCount == |ts| - i && Longest(ts) <= U32_MAX
    }

    method Next(ghost ts: seq<seq<Byte>>, ghost i: nat) returns (r: Option<nat>)
      requires At(ts, i)
      modifies this
      ensures i == |ts| ==> r == None && unchanged(this)
      ensures i < |ts| ==> r == Some(|ts[i]|) && At(ts, i + 1)
    {
      hide Lengths, Longest, Encoding;
      if remainingCount == 0 {
        return None;
      }
      SectionsFrom(ts, i);
      assert |ts[i]| <= Longest(ts);
      var next := DecodeU32(remaining);
      var code := Encoding(|ts[i]|);
      assert (code + Lengths(ts[i + 1..]))[|code|..] == Lengths(ts[i + 1..]);
      remaining := remaining[next.value.1..];
      remainingCount := remainingCount - 1;
      r := Some(next.value.0);
    }
  }

  /** Walks the tokens of validated sections. */
  class TokenIter {
    const arena: seq<Byte>
    const lengths: LengthIter
    var offset: nat
    var id: nat

    constructor (sections: Sections, vocabSize: nat)
      ensures fresh(lengths) && lengths.remaining == sections.lengths && lengths.remainingCount == vocabSize
      ensures arena == sections.arena && offset == 0 && id == 0
    {
      arena, offset, id := sections.arena, 0, 0;
      lengths := new LengthIter(sections.lengths, vocabSize);
    }

    ghost predicate At(ts: seq<seq<Byte>>, i: nat)
      reads this, lengths
    {
      lengths.At(ts, i) && arena == Arena(ts) && id == i && offset == |Arena(ts[..i])|
    }

    /** The next token is the next slot, empty ones included. */
    method Next(ghost ts: seq<seq<Byte>>) returns (r: Option<(nat, seq<Byte>)>)
      requires At(ts, id)
      modifies this, lengths
      ensures old(id) == |ts| ==> r == None && At(ts, id) && id == old(id)
      ensures old(id) < |ts| ==> r == Some((old(id), ts[old(id)])) && At(ts, id) && id == old(id) + 1
    {
      hide Arena, Lengths, Longest;
      var length := lengths.Next(ts, id);
      if length.None? {
        return None;
      }
      SectionsFrom(ts, id);
      SectionsAppend(ts, id);
      var start := offset;
      offset := offset + length.value;
      id := id + 1;
      assert arena[start..offset] == ts[id - 1];
      r := Some((id - 1, arena[start..offset]));
    }
  }

  lemma IterStarts(iter: TokenIter, ts: seq<seq<Byte>>)
    requires iter.lengths.remaining == Lengths(ts) && iter.lengths.remainingCount == |ts| && Longest(ts) <= U32_MAX
    requires iter.arena == Arena(ts) && iter.offset == 0 && iter.id == 0
    ensures iter.At(ts, 0)
  {
    assert ts[0..] == ts && ts[..0] == [];
  }

  /** Reading what the converter emitted yields every slot again, under its id. */
  method ReadBack(slots: seq<Option<seq<Byte>>>) returns (read: seq<(nat, seq<Byte>)>)
    requires Longest(Tokens(slots)) <= U32_MAX
    ensures |read| == |slots|
    ensures forall id :: 0 <= id < |slots| && slots[id].None? ==> read[id] == (id, [])
    ensures forall id :: 0 <= id < |slots| && slots[id].Some? ==> read[id] == (id, slots[id].value)
  {
    hide Arena, Lengths, Longest;
    ghost var ts := Tokens(slots);
    var sections := Emit(slots);
    var iter := new TokenIter(sections.value, |slots|);
    IterStarts(iter, ts);
    read := [];
    var next := iter.Next(ts);
    while next.Some?
      invariant fresh(iter) && fresh(iter.lengths) && iter.At(ts, iter.id)
      invariant next.Some? ==> iter.id == |read| + 1 && next.value == (|read|, ts[|read|])
      invariant next.None? ==> |read| == |slots|
      invariant forall id :: 0 <= id < |read| ==> read[id] == (id, ts[id])
      decreases |slots| - |read|
    {
      read := read + [next.value];
      next := iter.Next(ts);
    }
  }
}
