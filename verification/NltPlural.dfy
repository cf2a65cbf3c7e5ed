/** Plural groups: which form a count takes in a language, and which form of a group is shown for it. */
module NltPlural {
  import Bits
  import opened Bytes
  import opened NltIndex
  import opened Nlt
  import Utf16
  import Utf16Rewrite

  const ONE: nat := 1
  const FEW: nat := 3
  const MANY: nat := 4
  const OTHER: nat := 5
  const PLURAL_CATEGORIES: nat := 6

  /** The category of `n` in a language. */
  function Category(languageId: nat, n: nat): (c: nat)
    ensures c < PLURAL_CATEGORIES
  {
    if languageId == 15 then
      if n <= 2 then n else if 3 <= n % 100 <= 10 then FEW else MANY
    else if languageId in {14, 17, 24} then
      if n % 10 == 1 && n % 100 != 11 then ONE
      else if 2 <= n % 10 <= 4 && !(12 <= n % 100 <= 14) then FEW
      else if n % 10 == 0 || 5 <= n % 10 <= 9 || 11 <= n % 100 <= 14 then MANY
      else OTHER
    else if languageId in {3, 7} then
      if n <= 1 then ONE else OTHER
    else if languageId in {12, 13, 22, 23} then OTHER
    else if n == 1 then ONE
    else OTHER
  }

  // The rules, apart from the way they are tested. Slots: 0 zero, 1 one, 2 two, 3 few, 4 many, 5 other.

  /** Every language not named below, English among them, tells one from all other counts. */
  lemma OneOrOther(languageId: nat, n: nat)
    requires languageId !in {3, 7, 12, 13, 14, 15, 17, 22, 23, 24}
    ensures Category(languageId, n) == if n == 1 then 1 else 5
  {
  }

  /** French and Brazilian Portuguese count none as one. */
  lemma NoneCountsAsOne(languageId: nat, n: nat)
    requires languageId in {3, 7}
    ensures Category(languageId, n) == if n in {0, 1} then 1 else 5
  {
  }

  /** Four languages have one form. */
  lemma OneForm(languageId: nat, n: nat)
    requires languageId in {12, 13, 22, 23}
    ensures Category(languageId, n) == 5
  {
  }

  /** Counts that end in 1, but not in 11, and counts that end in 2, 3 or 4, but not in 12, 13 or 14. */
  const ENDS_IN_ONE: set<nat> := {1, 21, 31, 41, 51, 61, 71, 81, 91}

  const ENDS_IN_FEW: set<nat> :=
    {2, 3, 4, 22, 23, 24, 32, 33, 34, 42, 43, 44, 52, 53, 54, 62, 63, 64, 72, 73, 74, 82, 83, 84, 92, 93, 94}

  lemma Residues(r: nat)
    requires r < 100
    ensures r in ENDS_IN_ONE <==> r % 10 == 1 && r != 11
    ensures r in ENDS_IN_FEW <==> 2 <= r % 10 <= 4 && !(12 <= r <= 14)
  {
  }

  lemma LastTwoDigits(n: nat)
    ensures n % 100 % 10 == n % 10
  {
    var q, r := n / 100, n % 100;
    assert n == 10 * (10 * q + r / 10) + r % 10;
    Bits.DivModUnique(n, 10, 10 * q + r / 10, r % 10);
  }

  /** Russian, Polish and Czech go by the last two digits, and have no other counts than these. */
  lemma ByLastDigits(languageId: nat, n: nat)
    requires languageId in {14, 17, 24}
    ensures Category(languageId, n) == if n % 100 in ENDS_IN_ONE then 1 else if n % 100 in ENDS_IN_FEW then 3 else 4
    ensures Category(languageId, n + 100) == Category(languageId, n)
  {
    LastTwoDigits(n);
    Residues(n % 100);
  }

  /** Arabic has a slot each for none, one and two, and goes by the last two digits from there on. */
  lemma ThreeThenLastDigits(languageId: nat, n: nat)
    requires languageId == 15
    ensures n in {0, 1, 2} ==> Category(languageId, n) == n
    ensures n !in {0, 1, 2} ==> Category(languageId, n) == if n % 100 in {3, 4, 5, 6, 7, 8, 9, 10} then 3 else 4
  {
  }

  // ---- Choosing a form ----------------------------------------------------------------------

  /** What a group has for a category: no offset byte in the payload, nothing to show, or a string. */
  datatype Slot = Outside | Empty | Form(text: seq<byte>)

  ghost function SlotAt(payload: seq<byte>, base: nat, c: nat): (s: Slot) {
    if base + 1 + c >= |payload| then Outside
    else
      match StrAt(payload, (base + payload[base + 1 + c]) % WORD)
      case None => Empty
      case Some(s) => if s == [] then Empty else Form(s)
  }

  /** The string of the slot, or else what the search gives behind it; a slot without an offset byte ends the search. */
  function Else(s: Slot, r: Option<seq<byte>>): (r': Option<seq<byte>>) {
    match s case Outside => None case Empty => r case Form(text) => Some(text)
  }

  function Least(a: nat, b: nat): nat { if a < b then a else b }

  /** The category tried behind `c`. */
  function Following(c: nat, count: nat): (r: nat)
    requires count > 0
  {
    if c == OTHER then (c + 1) % count else Least(OTHER, count - 1)
  }

  /** What `turns` tries find, from category `c` on. */
  ghost function Tried(payload: seq<byte>, base: nat, count: nat, c: nat, turns: nat): (r: Option<seq<byte>>)
    requires count > 0
    decreases turns
  {
    if turns == 0 then None
    else Else(SlotAt(payload, base, c), Tried(payload, base, count, Following(c, count), turns - 1))
  }

  /** The form shown: as many slots are tried as the group has. */
  ghost function Selected(payload: seq<byte>, base: nat, languageId: nat, n: nat): (r: Option<seq<byte>>) {
    if base >= |payload| || payload[base] == 0 then None
    else
      var count: nat := payload[base];
      Tried(payload, base, count, Least(Category(languageId, n), count - 1), count)
  }

  /** Looking up a string by id and count. */
  ghost function Plural(payload: seq<byte>, version: nat, entries: nat, languageId: nat, id: nat, n: nat)
    : (r: Option<seq<byte>>)
  {
    match Search(payload, version, id, 0, entries - 1)
    case None => None
    case Some(e) => if Utf16Rewrite.IsPlural(e) then Selected(payload, e.off, languageId, n) else StrAt(payload, e.off)
  }

  /** Two slots tried in turn give what the first two tries give. */
  lemma {:induction false} TurnAndTurn(payload: seq<byte>, base: nat, count: nat, c: nat, d: nat, turns: nat)
    requires count > 0 && turns >= 2 && d == Following(c, count) && c == Following(d, count)
    ensures Tried(payload, base, count, c, turns) ==
            Else(SlotAt(payload, base, c), Else(SlotAt(payload, base, d), None))
    decreases turns
  {
    var next := Tried(payload, base, count, c, turns - 2);
    assert Tried(payload, base, count, d, turns - 1) == Else(SlotAt(payload, base, d), next);
    if turns == 3 {
      assert next == Else(SlotAt(payload, base, c), None);
    } else if turns > 3 {
      TurnAndTurn(payload, base, count, c, d, turns - 2);
    }
  }

  /** The last resort: of a full group its first slot, of a larger one its seventh, of a smaller one its last. */
  function LastResort(count: nat): (c: nat)
    requires count > 0
  {
    if count <= OTHER then count - 1 else if count == PLURAL_CATEGORIES then 0 else PLURAL_CATEGORIES
  }

  /** From the form for all other counts on, the last resort is the only other slot tried. */
  lemma TriedTwo(payload: seq<byte>, base: nat, count: nat, c: nat, d: nat, turns: nat)
    requires count > 0 && c == Least(OTHER, count - 1) && d == LastResort(count) && turns >= 1
    requires turns >= 2 || c == d
    ensures Tried(payload, base, count, c, turns) ==
            Else(SlotAt(payload, base, c), Else(SlotAt(payload, base, d), None))
  {
    assert Following(c, count) == d && Following(d, count) == c;
    if turns >= 2 {
      TurnAndTurn(payload, base, count, c, d, turns);
    } else {
      assert Tried(payload, base, count, d, 0) == None;
    }
  }

  /**
   * The form shown is the first to show of three: that of the count's category, the one for all other counts, and
   * the last resort. No other slot of the group is looked at, whatever is in it.
   */
  lemma SelectedIs(payload: seq<byte>, base: nat, languageId: nat, n: nat, count: nat)
    requires base < |payload| && payload[base] == count > 0
    ensures Selected(payload, base, languageId, n) ==
            Else(SlotAt(payload, base, Least(Category(languageId, n), count - 1)),
                 Else(SlotAt(payload, base, Least(OTHER, count - 1)),
                      Else(SlotAt(payload, base, LastResort(count)), None)))
  {
    var c, other, last := Least(Category(languageId, n), count - 1), Least(OTHER, count - 1), LastResort(count);
    if c == other {
      TriedTwo(payload, base, count, c, last, count);
    } else {
      assert Following(c, count) == other;
      TriedTwo(payload, base, count, other, last, count - 1);
    }
  }

  /**
   * So a group whose offset bytes are all there shows something exactly when one of those three slots does...
   */
  lemma ShownIff(payload: seq<byte>, base: nat, languageId: nat, n: nat, count: nat)
    requires base + count < |payload| && payload[base] == count > 0
    ensures Selected(payload, base, languageId, n).Some? <==>
              || SlotAt(payload, base, Least(Category(languageId, n), count - 1)).Form?
              || SlotAt(payload, base, Least(OTHER, count - 1)).Form?
              || SlotAt(payload, base, LastResort(count)).Form?
  {
    SelectedIs(payload, base, languageId, n, count);
    InPayload(payload, base, Least(Category(languageId, n), count - 1), count);
    InPayload(payload, base, Least(OTHER, count - 1), count);
    InPayload(payload, base, LastResort(count), count);
  }

  lemma InPayload(payload: seq<byte>, base: nat, c: nat, count: nat)
    requires base + count < |payload| && c < count
    ensures SlotAt(payload, base, c) != Outside
  {
  }

  /** ...and nothing where only another slot has a string, though any slot should do. */
  lemma SlotNotTried(payload: seq<byte>)
    requires payload == [6, 7, 8, 7, 7, 7, 7, 0, 0x61, 0]
    ensures SlotAt(payload, 0, ONE) == Form([0x61]) && Category(14, 2) == FEW && Selected(payload, 0, 14, 2) == None
  {
    ShortStrings(payload);
    SlotOf(payload, ONE);
    SlotOf(payload, FEW);
    SlotOf(payload, OTHER);
    SlotOf(payload, 0);
    ShownIff(payload, 0, 14, 2, payload[0]);
  }

  lemma SlotOf(payload: seq<byte>, c: nat)
    requires |payload| == 10 && c < 6 && (payload[1 + c] == 7 || payload[1 + c] == 8)
    requires StrAt(payload, 8) == Some([0x61]) && StrAt(payload, 7) == Some([])
    ensures SlotAt(payload, 0, c) == if payload[1 + c] == 7 then Empty else Form([0x61])
  {
  }

  lemma ShortStrings(payload: seq<byte>)
    requires payload == [6, 7, 8, 7, 7, 7, 7, 0, 0x61, 0]
    ensures StrAt(payload, 8) == Some([0x61]) && StrAt(payload, 7) == Some([])
  {
    var i: nat := 8;
    assert ZeroFrom(payload, i + 1) == Some(9);
    assert ZeroFrom(payload, i) == Some(9) && ZeroFrom(payload, i - 1) == Some(7);
    assert payload[8..9] == [0x61] && payload[7..7] == [];
    LetterIsText();
    assert Utf16.Utf8([]) == [];
  }

  lemma LetterIsText()
    ensures ValidUtf8([0x61])
  {
    var cps: seq<Utf16.CodePoint> := [0x61];
    assert cps[1..] == [];
    assert Utf16.Utf8(cps) == [0x61];
  }

  // ---- A rewritten UTF-16 table ------------------------------------------------------------------

  /** In a rewritten table no string has an end, so no slot of any group has anything to show. */
  lemma RewrittenSlot(payload: seq<byte>, n: nat, cap: nat, i: nat, was: Entry, c: nat)
    requires Utf16Rewrite.Rewrite(payload, VERSION_V3, n, cap).Some? && cap < WORD && i < n
    requires ReadIndex(payload, VERSION_V3, i) == Some(was) && Utf16Rewrite.IsPlural(was)
    requires c < Utf16Rewrite.FormCount(payload, was.off)
    ensures var out := Utf16Rewrite.Rewrite(payload, VERSION_V3, n, cap).value;
            && ReadIndex(out, VERSION_V3, i).Some?
            && var base := ReadIndex(out, VERSION_V3, i).value.off;
               base < |out| && out[base] == payload[was.off] && SlotAt(out, base, c) == Empty
  {
    var out := Utf16Rewrite.Rewrite(payload, VERSION_V3, n, cap).value;
    Utf16Rewrite.RewriteLayout(payload, n, cap, i);
    Utf16Rewrite.RewritePlural(payload, n, cap, i, was, c);
    RewrittenNoZero(payload, n, cap);
    SlotUnended(payload, was.off, out, ReadIndex(out, VERSION_V3, i).value.off, ENTRY_V3_SIZE * n, c);
  }

  lemma SlotUnended(payload: seq<byte>, was: nat, out: seq<byte>, base: nat, index: nat, c: nat)
    requires Utf16Rewrite.FormMoved(payload, was, out, base, c) && index <= base && |out| < WORD && 0 !in out[index..]
    ensures base < |out| && out[base] == payload[was] && SlotAt(out, base, c) == Empty
  {
    BehindIndex(out, index, base + out[base + 1 + c]);
  }

  lemma BehindIndex(out: seq<byte>, index: nat, off: nat)
    requires index <= off <= |out| < WORD && 0 !in out[index..]
    ensures StrAt(out, off % WORD) == None
  {
    forall k | off <= k < |out| ensures out[k] != 0 { assert out[index..][k - index] == out[k]; }
    NoZeroFound(out, off);
  }

  lemma RewrittenGroup(payload: seq<byte>, n: nat, cap: nat, i: nat, was: Entry, languageId: nat, k: nat)
    requires Utf16Rewrite.Rewrite(payload, VERSION_V3, n, cap).Some? && cap < WORD && i < n
    requires ReadIndex(payload, VERSION_V3, i) == Some(was) && Utf16Rewrite.IsPlural(was)
    ensures var out := Utf16Rewrite.Rewrite(payload, VERSION_V3, n, cap).value;
            && ReadIndex(out, VERSION_V3, i).Some?
            && Selected(out, ReadIndex(out, VERSION_V3, i).value.off, languageId, k) == None
  {
    var out := Utf16Rewrite.Rewrite(payload, VERSION_V3, n, cap).value;
    Utf16Rewrite.RewriteLayout(payload, n, cap, i);
    var count := Utf16Rewrite.FormCount(payload, was.off);
    forall c: nat | c < count
      ensures var base := ReadIndex(out, VERSION_V3, i).value.off;
              base < |out| && out[base] == payload[was.off] && SlotAt(out, base, c) == Empty
    {
      RewrittenSlot(payload, n, cap, i, was, c);
    }
    RewrittenSlot(payload, n, cap, i, was, 0);
    SelectedIs(out, ReadIndex(out, VERSION_V3, i).value.off, languageId, k, count);
  }

  /** So in a rewritten table nothing is shown for any id and any count. */
  lemma RewrittenShowsNothing(payload: seq<byte>, n: nat, cap: nat, languageId: nat, id: nat, k: nat)
    requires Utf16Rewrite.Rewrite(payload, VERSION_V3, n, cap).Some? && cap < WORD
    ensures Plural(Utf16Rewrite.Rewrite(payload, VERSION_V3, n, cap).value, VERSION_V3, n, languageId, id, k) == None
  {
    var out := Utf16Rewrite.Rewrite(payload, VERSION_V3, n, cap).value;
    var e := Search(out, VERSION_V3, id, 0, n - 1);
    if e.Some? {
      RewrittenUnreadable(payload, n, cap, id);
      var i := SearchFinds(out, VERSION_V3, id, 0, n - 1);
      Utf16Rewrite.RewriteLayout(payload, n, cap, i);
      var was := ReadIndex(payload, VERSION_V3, i).value;
      if Utf16Rewrite.IsPlural(was) { RewrittenGroup(payload, n, cap, i, was, languageId, k); }
    }
  }

  // ---- The loops --------------------------------------------------------------------------------

  /** The string at `off`, with a test for UTF-8. */
  method ReadStr(payload: seq<byte>, off: nat, utf8: seq<byte> -> bool) returns (r: Option<seq<byte>>)
    requires forall bs: seq<byte> :: utf8(bs) <==> ValidUtf8(bs)
    ensures r == StrAt(payload, off)
  {
    var end := off;
    while end < |payload| && payload[end] != 0
      invariant off <= end && (end <= |payload| || end == off) && ZeroFrom(payload, off) == ZeroFrom(payload, end)
      decreases |payload| - end
    {
      end := end + 1;
    }
    if end >= |payload| || !utf8(payload[off..end]) { return None; }
    return Some(payload[off..end]);
  }

  method Select(payload: seq<byte>, base: nat, languageId: nat, n: nat, utf8: seq<byte> -> bool)
    returns (r: Option<seq<byte>>)
    requires forall bs: seq<byte> :: utf8(bs) <==> ValidUtf8(bs)
    ensures r == Selected(payload, base, languageId, n)
  {
    if base >= |payload| { return None; }
    var count: nat := payload[base];
    if count == 0 { return None; }
    var candidate: nat := Least(Category(languageId, n), count - 1);
    for i := 0 to count
      invariant Selected(payload, base, languageId, n) == Tried(payload, base, count, candidate, count - i)
    {
      if base + 1 + candidate >= |payload| { return None; }
      var s := ReadStr(payload, (base + payload[base + 1 + candidate]) % WORD, utf8);
      if s.Some? && s.value != [] { return s; }
      candidate := if candidate == OTHER then (candidate + 1) % count else Least(OTHER, count - 1);
    }
    return None;
  }
}
