/** What a directory table means: the entries in order, and how they are searched and filled. */
module Listing {
  import opened Bytes
  import opened DirEntry

  datatype Option<T> = None | Some(value: T)

  /** A name as a directory object carries it: 11 bytes of name and a byte of NT flags. */
  type Name = n: seq<byte> | |n| == 12 witness seq(12, _ => 0)

  const NAME_LEN := 11

  /** An index is a WORD, so no table has more entries than this. */
  const MAX_ENTRIES := 0x1_0000

  const DOT := 0x2E

  predicate EndsTable(e: Entry) { e[0] == 0 }

  predicate Vacant(e: Entry) { e[0] == 0 || e[0] == DELETED }

  /** An entry that stands for a file or a directory. */
  predicate Visible(e: Entry) {
    !Vacant(e) && e[0] != DOT && !HasBit(e[DIR_ATTR], AM_VOL)
  }

  predicate Matches(e: Entry, fn: Name) {
    Visible(e) && e[..NAME_LEN] == fn[..NAME_LEN]
  }

  /** A name a new entry may carry and be found by. */
  predicate Usable(fn: Name) {
    fn[0] != 0 && fn[0] != DELETED && fn[0] != DOT
  }

  /** Entry `i` is reached by a search from the start. */
  ghost predicate Reached(items: seq<Entry>, i: nat) {
    i < |items| && i < MAX_ENTRIES && forall j :: 0 <= j < i ==> !EndsTable(items[j])
  }

  /** Entry `i` is part of the directory. */
  ghost predicate Live(items: seq<Entry>, i: nat) {
    Reached(items, i) && Visible(items[i])
  }

  /** Searching for a name from entry `i` on. */
  function Lookup(items: seq<Entry>, fn: Name, i: nat): (r: Option<nat>)
    ensures r.Some? ==> i <= r.value < |items| && Matches(items[r.value], fn)
    decreases |items| - i
  {
    if i >= |items| || i >= MAX_ENTRIES || EndsTable(items[i]) then None
    else if Matches(items[i], fn) then Some(i)
    else Lookup(items, fn, i + 1)
  }

  /** The first vacant entry from `i` on, or one past the end. */
  function Vacancy(items: seq<Entry>, i: nat): (s: nat)
    requires i <= |items|
    ensures i <= s <= |items|
    ensures s < |items| ==> Vacant(items[s])
    ensures forall j :: i <= j < s ==> !Vacant(items[j])
    decreases |items| - i
  {
    if i == |items| || Vacant(items[i]) then i else Vacancy(items, i + 1)
  }

  /** `x & 0x18`. */
  function NtFlags(x: byte): byte {
    x / 8 % 4 * 8
  }

  function Cleared(): Entry {
    seq(ENTRY_SIZE, _ => 0)
  }

  /** The entry `dir_register` makes: all zero but for the name and the NT flags. */
  function NewEntry(fn: Name): (e: Entry)
    ensures e[..NAME_LEN] == fn[..NAME_LEN]
    ensures forall i :: NAME_LEN <= i < ENTRY_SIZE ==> e[i] == if i == DIR_NTRES then NtFlags(fn[NAME_LEN]) else 0
  {
    Patch(Cleared(), 0, fn[..NAME_LEN])[DIR_NTRES := NtFlags(fn[NAME_LEN])]
  }

  /** The bytes of a new entry: the name, bits 3 and 4 of the flags, and zeros. */
  lemma NewEntryBytes(fn: Name)
    ensures NewEntry(fn)[..11] == fn[..11]
    ensures forall i :: 11 <= i < 32 && i != 12 ==> NewEntry(fn)[i] == 0
    ensures forall m :: m in {1, 2, 4, 8, 16, 32, 64, 128} ==>
              (HasBit(NewEntry(fn)[12], m) <==> m in {8, 16} && HasBit(fn[11], m))
  {
    hide NewEntry;
    var x, y := fn[11], NewEntry(fn)[12];
    forall m | m in {1, 2, 4, 8, 16, 32, 64, 128} ensures HasBit(y, m) <==> m in {8, 16} && HasBit(x, m) {
      if m == 1 {
      } else if m == 2 {
      } else if m == 4 {
      } else if m == 8 {
      } else if m == 16 {
      } else if m == 32 {
      } else if m == 64 {
      }
    }
  }

  /** Entries of a freshly cleared cluster. */
  function ClearedMany(n: nat): (r: seq<Entry>)
    ensures |r| == n && forall i :: 0 <= i < n ==> r[i] == Cleared()
  {
    if n == 0 then [] else ClearedMany(n - 1) + [Cleared()]
  }

  /** A hit is the first live entry of that name; a miss means there is none. */
  lemma {:induction false} LookupFinds(items: seq<Entry>, fn: Name, i: nat)
    requires forall j :: 0 <= j < i && j < |items| ==> !EndsTable(items[j])
    ensures var r := Lookup(items, fn, i);
            && (r.Some? ==> Live(items, r.value) && forall j :: i <= j < r.value ==> !Matches(items[j], fn))
            && (r.None? ==> forall j :: i <= j && Live(items, j) ==> !Matches(items[j], fn))
    decreases |items| - i
  {
    if i < |items| && i < MAX_ENTRIES && !EndsTable(items[i]) && !Matches(items[i], fn) {
      LookupFinds(items, fn, i + 1);
    }
  }

  /**
   * What a search finds, in terms of the bytes: the first entry of that name that is neither a deleted or
   * dot entry nor a volume label, unless an end mark or the last index comes first.
   */
  lemma LookupMeans(items: seq<Entry>, fn: Name, s: nat)
    ensures Lookup(items, fn, 0) == Some(s) <==>
              && s < |items| && s < 0x1_0000 && Answers(items[s], fn)
              && forall j :: 0 <= j < s ==> items[j][0] != 0 && !Answers(items[j], fn)
  {
    LookupFinds(items, fn, 0);
    forall e: Entry ensures Matches(e, fn) <==> Answers(e, fn) {
      AnswersMatch(e, fn);
    }
    if s < |items| && s < 0x1_0000 && Answers(items[s], fn)
       && forall j :: 0 <= j < s ==> items[j][0] != 0 && !Answers(items[j], fn) {
      LookupIs(items, fn, 0, s);
    }
  }

  /** The 11 bytes of the name, which starts with no mark and no dot, and bit 3 of the attribute clear. */
  predicate Answers(e: Entry, fn: Name) {
    && e[..11] == fn[..11] && e[0] !in {0, 0xE5, 0x2E} && (e[11] as int) / 8 % 2 == 0
  }

  lemma AnswersMatch(e: Entry, fn: Name)
    ensures Matches(e, fn) <==> Answers(e, fn)
  {
  }

  /** The search stops at the first live entry of the name. */
  lemma {:induction false} LookupIs(items: seq<Entry>, fn: Name, i: nat, s: nat)
    requires i <= s && Live(items, s) && Matches(items[s], fn)
    requires forall j :: i <= j < s ==> !Matches(items[j], fn)
    ensures Lookup(items, fn, i) == Some(s)
    decreases s - i
  {
    if i < s {
      LookupIs(items, fn, i + 1, s);
    }
  }

  /** Once nothing live is left, nothing is found. */
  lemma LookupNothing(items: seq<Entry>, fn: Name)
    requires forall j :: 0 <= j && Live(items, j) ==> !Matches(items[j], fn)
    ensures Lookup(items, fn, 0) == None
  {
    LookupFinds(items, fn, 0);
  }

  /** No two live entries have the same name. */
  ghost predicate Unique(items: seq<Entry>) {
    forall i, j :: 0 <= i < j && Live(items, i) && Live(items, j) ==> items[i][..NAME_LEN] != items[j][..NAME_LEN]
  }

  /** Behind the first end mark there are only end marks. */
  ghost predicate Tidy(items: seq<Entry>) {
    forall i, j :: 0 <= i < j < |items| && EndsTable(items[i]) ==> EndsTable(items[j])
  }

  /** What was registered under a name not in use is found again under it, whatever the table holds. */
  lemma RegisteredIsFound(items: seq<Entry>, fn: Name)
    requires Usable(fn) && Lookup(items, fn, 0) == None
    requires var s := Vacancy(items, 0); s < |items| && s < MAX_ENTRIES
    ensures var s := Vacancy(items, 0);
            Lookup(items[s := NewEntry(fn)], fn, 0) == Some(s)
  {
    hide NewEntry;
    var s := Vacancy(items, 0);
    var now := items[s := NewEntry(fn)];
    LookupFinds(items, fn, 0);
    assert NewEntry(fn)[0] == NewEntry(fn)[..NAME_LEN][0] == fn[0];
    assert NewEntry(fn)[DIR_ATTR] == 0;
    forall j | 0 <= j < s ensures !Matches(now[j], fn) {
      assert Reached(items, j);
    }
    LookupIs(now, fn, 0, s);
  }

  /** Registering keeps the table tidy and makes exactly one more entry live. */
  lemma RegisteredLive(items: seq<Entry>, fn: Name, i: nat)
    requires Usable(fn) && Tidy(items)
    requires var s := Vacancy(items, 0); s < |items| && s < MAX_ENTRIES
    ensures var s := Vacancy(items, 0);
            var now := items[s := NewEntry(fn)];
            && Tidy(now)
            && (Live(now, i) <==> i == s || Live(items, i))
            && !Live(items, s)
  {
    hide NewEntry;
    var s := Vacancy(items, 0);
    var now := items[s := NewEntry(fn)];
    assert NewEntry(fn)[0] == NewEntry(fn)[..NAME_LEN][0] == fn[0];
    assert NewEntry(fn)[DIR_ATTR] == 0;
    if i > s && i < |items| && EndsTable(items[s]) {
      assert EndsTable(items[i]);
    }
  }

  /** Registering refines insertion into a map from names to entries: every other name leads where it did. */
  lemma RegisterInserts(items: seq<Entry>, fn: Name, other: Name)
    requires Usable(fn) && Tidy(items) && Lookup(items, fn, 0) == None
    requires var s := Vacancy(items, 0); s < |items| && s < MAX_ENTRIES
    ensures var s := Vacancy(items, 0);
            Lookup(items[s := NewEntry(fn)], other, 0) ==
            if other[..NAME_LEN] == fn[..NAME_LEN] then Some(s) else Lookup(items, other, 0)
  {
    hide NewEntry;
    var s := Vacancy(items, 0);
    var now := items[s := NewEntry(fn)];
    var r := Lookup(items, other, 0);
    LookupFinds(items, other, 0);
    forall i: nat ensures Live(now, i) <==> i == s || Live(items, i) {
      RegisteredLive(items, fn, i);
    }
    RegisteredLive(items, fn, s);
    if other[..NAME_LEN] == fn[..NAME_LEN] {
      RegisteredIsFound(items, fn);
      SameName(now, fn, other, 0);
    } else if r.Some? {
      forall j | 0 <= j < r.value ensures !Matches(now[j], other) {
      }
      LookupIs(now, other, 0, r.value);
    } else {
      LookupNothing(now, other);
    }
  }

  /** Only the 11 bytes of the name matter to a search. */
  lemma {:induction false} SameName(items: seq<Entry>, fn: Name, other: Name, i: nat)
    requires other[..NAME_LEN] == fn[..NAME_LEN]
    ensures Lookup(items, other, i) == Lookup(items, fn, i)
    decreases |items| - i
  {
    if i < |items| {
      SameName(items, fn, other, i + 1);
    }
  }

  /** Names stay unique. */
  lemma RegisterKeepsUnique(items: seq<Entry>, fn: Name)
    requires Usable(fn) && Tidy(items) && Unique(items) && Lookup(items, fn, 0) == None
    requires var s := Vacancy(items, 0); s < |items| && s < MAX_ENTRIES
    ensures var s := Vacancy(items, 0);
            Unique(items[s := NewEntry(fn)]) && Tidy(items[s := NewEntry(fn)])
  {
    hide NewEntry;
    var s := Vacancy(items, 0);
    var now := items[s := NewEntry(fn)];
    LookupFinds(items, fn, 0);
    forall i: nat ensures Live(now, i) <==> i == s || Live(items, i) {
      RegisteredLive(items, fn, i);
    }
    RegisteredLive(items, fn, s);
    forall i, j | 0 <= i < j && Live(now, i) && Live(now, j)
      ensures now[i][..NAME_LEN] != now[j][..NAME_LEN]
    {
      if i == s {
        assert !Matches(items[j], fn);
      } else if j == s {
        assert !Matches(items[i], fn);
      }
    }
  }

  /** A table with cleared entries appended is the same directory, with room. */
  lemma StretchedSame(items: seq<Entry>, n: nat, fn: Name)
    requires Tidy(items)
    ensures var now := items + ClearedMany(n);
            && Tidy(now) && (Unique(items) ==> Unique(now))
            && Lookup(now, fn, 0) == Lookup(items, fn, 0)
            && (Vacancy(items, 0) == |items| ==> Vacancy(now, 0) == |items|)
  {
    hide ClearedMany;
    var now := items + ClearedMany(n);
    forall j | |items| <= j < |now| ensures EndsTable(now[j]) {
      assert now[j] == ClearedMany(n)[j - |items|];
    }
    forall i: nat ensures Live(now, i) <==> Live(items, i) {
      StretchedLive(items, now, i);
    }
    LookupFinds(items, fn, 0);
    if Lookup(items, fn, 0).Some? {
      LookupIs(now, fn, 0, Lookup(items, fn, 0).value);
    } else {
      LookupNothing(now, fn);
    }
    if Vacancy(items, 0) == |items| {
      VacancyIs(now, 0, |items|);
    }
  }

  lemma {:induction false} VacancyIs(items: seq<Entry>, i: nat, s: nat)
    requires i <= s <= |items| && (s < |items| ==> Vacant(items[s]))
    requires forall j :: i <= j < s ==> !Vacant(items[j])
    ensures Vacancy(items, i) == s
    decreases s - i
  {
    if i < s {
      VacancyIs(items, i + 1, s);
    }
  }

  /** A new name goes to the first entry that starts with an end mark or a deletion mark. */
  lemma VacancyMeans(items: seq<Entry>, s: nat)
    ensures Vacancy(items, 0) == s <==>
              && s <= |items| && (s < |items| ==> items[s][0] in {0, 0xE5})
              && forall j :: 0 <= j < s ==> items[j][0] !in {0, 0xE5}
  {
    if s <= |items| && (s < |items| ==> Vacant(items[s])) && forall j :: 0 <= j < s ==> !Vacant(items[j]) {
      VacancyIs(items, 0, s);
    }
  }

  lemma StretchedLive(items: seq<Entry>, now: seq<Entry>, i: nat)
    requires items <= now && forall j :: |items| <= j < |now| ==> EndsTable(now[j])
    ensures Live(now, i) <==> Live(items, i)
  {
    if i < |items| {
      assert forall j :: 0 <= j <= i ==> now[j] == items[j];
    }
  }

  /** The table with room for entry `i`: stretched by `n` cleared entries when it is full. */
  ghost function WithRoom(items: seq<Entry>, i: nat, n: nat): (r: seq<Entry>)
  {
    if i < |items| then items else items + ClearedMany(n)
  }

  /**
   * Registering as a whole, stretching included: a tidy table stays tidy, names stay unique, and the
   * table means what it meant before plus the new name.
   */
  lemma RegisterRefines(items: seq<Entry>, fn: Name, n: nat)
    requires Usable(fn) && Tidy(items) && Lookup(items, fn, 0) == None
    requires var s := Vacancy(items, 0); s < MAX_ENTRIES && s < |WithRoom(items, s, n)|
    ensures var s := Vacancy(items, 0);
            var now := WithRoom(items, s, n)[s := NewEntry(fn)];
            && Tidy(now) && (Unique(items) ==> Unique(now))
            && forall other: Name :: Lookup(now, other, 0) ==
                 if other[..NAME_LEN] == fn[..NAME_LEN] then Some(s) else Lookup(items, other, 0)
  {
    hide NewEntry, Lookup, Tidy, Unique;
    var s := Vacancy(items, 0);
    var room := WithRoom(items, s, n);
    var now := room[s := NewEntry(fn)];
    StretchedSame(items, n, fn);
    if Unique(items) {
      RegisterKeepsUnique(room, fn);
    }
    forall other: Name ensures Lookup(now, other, 0) ==
      if other[..NAME_LEN] == fn[..NAME_LEN] then Some(s) else Lookup(items, other, 0)
    {
      StretchedSame(items, n, other);
      RegisterInserts(room, fn, other);
    }
    RegisteredLive(room, fn, 0);
  }
}
