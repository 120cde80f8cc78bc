/** The comparator `fieldSorter(fields, ignoreCase)` of
    src/app/todo/todo.component.ts and the orders it is meant to produce.
    Strings are compared lexicographically on Dafny's `char`, a Unicode
    scalar value, which is code-point order; JavaScript's `<` and `>` compare
    UTF-16 code units, and the two orders differ only between characters
    outside the Basic Multilingual Plane and U+E000..U+FFFF.
    `toLocaleLowerCase` is modelled as ASCII lowercasing. */
module Sorting {
  import opened Todos

  // ---------------------------------------------------------------------------
  // Strings

  /** `s < t` on two strings, comparing code points. */
  predicate StrLess(s: string, t: string)
  {
    if s == [] then t != []
    else if t == [] then false
    else if s[0] != t[0] then s[0] < t[0]
    else StrLess(s[1..], t[1..])
  }

  lemma {:induction false} StrLessIrreflexive(s: string)
    ensures !StrLess(s, s)
  {
    if s != [] { StrLessIrreflexive(s[1..]); }
  }

  lemma {:induction false} StrLessAsymmetric(s: string, t: string)
    ensures !(StrLess(s, t) && StrLess(t, s))
  {
    if s != [] && t != [] && s[0] == t[0] { StrLessAsymmetric(s[1..], t[1..]); }
  }

  /** Any two different strings are ordered one way or the other. */
  lemma {:induction false} StrLessTotal(s: string, t: string)
    ensures s == t || StrLess(s, t) || StrLess(t, s)
  {
    if s != [] && t != [] && s[0] == t[0] {
      StrLessTotal(s[1..], t[1..]);
      if s[1..] == t[1..] { assert s == [s[0]] + s[1..] && t == [t[0]] + t[1..]; }
    }
  }

  lemma {:induction false} StrLessTransitive(s: string, t: string, u: string)
    requires StrLess(s, t) && StrLess(t, u)
    ensures StrLess(s, u)
  {
    if s != [] && s[0] == t[0] && t[0] == u[0] {
      StrLessTransitive(s[1..], t[1..], u[1..]);
    }
  }

  /** The three-way result of `s > t ? 1 : s < t ? -1 : 0` on two strings. */
  function StrCompare(s: string, t: string): int
  {
    if StrLess(t, s) then 1 else if StrLess(s, t) then -1 else 0
  }

  /** Two strings compare as equal exactly when they are equal. */
  lemma StrCompareZero(s: string, t: string)
    ensures StrCompare(s, t) == 0 <==> s == t
  {
    StrLessTotal(s, t);
    StrLessIrreflexive(s);
  }

  lemma StrCompareAntisymmetric(s: string, t: string)
    ensures StrCompare(s, t) == -StrCompare(t, s)
  {
    StrLessAsymmetric(s, t);
  }

  /** `StrCompare(s, t) <= 0` is transitive. */
  lemma StrCompareTransitive(s: string, t: string, u: string)
    requires StrCompare(s, t) <= 0 && StrCompare(t, u) <= 0
    ensures StrCompare(s, u) <= 0
  {
    StrCompareZero(s, t);
    StrCompareZero(t, u);
    StrLessAsymmetric(s, u);
    if s != t && t != u {
      StrLessTotal(s, t);
      StrLessTotal(t, u);
      StrLessTransitive(s, t, u);
    }
  }

  function LowerChar(c: char): char
  {
    if 'A' <= c <= 'Z' then (c as int + 32) as char else c
  }

  /** `s.toLocaleLowerCase()`, restricted to ASCII letters. */
  function Lower(s: string): (r: string)
    ensures |r| == |s|
    ensures forall k | 0 <= k < |r| :: !('A' <= r[k] <= 'Z')
    ensures forall k | 0 <= k < |s| && !('A' <= s[k] <= 'Z') :: r[k] == s[k]
    ensures forall k | 0 <= k < |s| && 'A' <= s[k] <= 'Z' :: r[k] as int - s[k] as int == 'a' as int - 'A' as int
  {
    seq(|s|, k requires 0 <= k < |s| => LowerChar(s[k]))
  }

  predicate IsLower(s: string)
  {
    Lower(s) == s
  }

  lemma LowerIsLower(s: string)
    ensures IsLower(Lower(s))
  {
  }

  // ---------------------------------------------------------------------------
  // Property access on a todo

  /** The value of property `a[o]` as the comparator reads it. */
  datatype Value = Bool(b: bool) | Str(s: string) | Num(n: int) | Undefined

  function Property(t: Todo, name: string): Value
  {
    if name == "id" then Str(t.id)
    else if name == "item" then Str(t.item)
    else if name == "completed" then Bool(t.completed)
    else if name == "createdAt" then Num(t.createdAt)
    else if name == "updatedAt" then Num(t.updatedAt)
    else Undefined
  }

  /** `t[name] = s` for a string property. */
  function WithString(t: Todo, name: string, s: string): (r: Todo)
    requires Property(t, name).Str?
    ensures Property(r, name) == Str(s)
    ensures forall p | p != name :: Property(r, p) == Property(t, p)
    ensures r.completed == t.completed && r.createdAt == t.createdAt && r.updatedAt == t.updatedAt
  {
    if name == "id" then t.(id := s) else t.(item := s)
  }

  /** `x > y`: booleans compare as 0 and 1, strings by code units, and a
      comparison with `undefined` is false. */
  predicate Greater(x: Value, y: Value)
  {
    match (x, y)
    case (Bool(p), Bool(q)) => p && !q
    case (Str(s), Str(t)) => StrLess(t, s)
    case (Num(m), Num(n)) => m > n
    case _ => false
  }

  // ---------------------------------------------------------------------------
  // The comparator as written

  /** One key of the comparator: a leading `-` reverses the direction; with
      `ignoreCase`, when both properties are strings, `b`'s property is
      lowercased in place (the lowercased copy of `a`'s goes to property
      `0`, which no key reads). Returns the key's result and `b`'s new value. */
  function KeyResult(key: string, ignoreCase: bool, a: Todo, b: Todo): (int, Todo)
  {
    var (dir, o) := if |key| > 0 && key[0] == '-' then (-1, key[1..]) else (1, key);
    var b' := if ignoreCase && Property(a, o).Str? && Property(b, o).Str?
              then WithString(b, o, Lower(Property(b, o).s)) else b;
    var x, y := Property(a, o), Property(b', o);
    (if Greater(x, y) then dir else if Greater(y, x) then -dir else 0, b')
  }

  /** The comparator `fieldSorter(fields, ignoreCase)(a, b)`: every key is
      evaluated in order (so every key's side effect on `b` happens), and the
      result is the first non-zero key result. Returns the result and `b`'s
      new value. */
  function FieldSorter(keys: seq<string>, ignoreCase: bool, a: Todo, b: Todo): (r: (int, Todo))
    ensures r.0 == -1 || r.0 == 0 || r.0 == 1
    ensures r.1.completed == b.completed && r.1.createdAt == b.createdAt && r.1.updatedAt == b.updatedAt
    ensures r.1.item == b.item || (ignoreCase && r.1.item == Lower(b.item))
    ensures r.1.id == b.id || (ignoreCase && r.1.id == Lower(b.id))
  {
    if keys == [] then (0, b)
    else
      var (first, b1) := KeyResult(keys[0], ignoreCase, a, b);
      var (rest, b2) := FieldSorter(keys[1..], ignoreCase, a, b1);
      (if first != 0 then first else rest, b2)
  }

  /** A decisive key decides: the keys after it still run, but only for their side effects. */
  lemma FirstKeyDecides(key: string, rest: seq<string>, ignoreCase: bool, a: Todo, b: Todo)
    requires KeyResult(key, ignoreCase, a, b).0 != 0
    ensures FieldSorter([key] + rest, ignoreCase, a, b).0 == KeyResult(key, ignoreCase, a, b).0
  {
    assert ([key] + rest)[1..] == rest;
  }

  /** A key that ties passes the decision on to the keys after it. */
  lemma TiedKeyDefers(key: string, rest: seq<string>, ignoreCase: bool, a: Todo, b: Todo)
    requires KeyResult(key, ignoreCase, a, b).0 == 0
    ensures FieldSorter([key] + rest, ignoreCase, a, b).0
         == FieldSorter(rest, ignoreCase, a, KeyResult(key, ignoreCase, a, b).1).0
  {
    assert ([key] + rest)[1..] == rest;
  }

  /** On `completed`, an incomplete todo sorts before a completed one, and
      `b` is left as it is (booleans are never lowercased). */
  lemma CompletedKey(ignoreCase: bool, a: Todo, b: Todo)
    ensures KeyResult("completed", ignoreCase, a, b)
         == (if a.completed == b.completed then 0 else if a.completed then 1 else -1, b)
  {
  }

  /** A leading `-` reverses the order a key gives, and has the same side effect. */
  lemma {:induction false} ReversedKey(key: string, ignoreCase: bool, a: Todo, b: Todo)
    requires key == [] || key[0] != '-'
    ensures KeyResult("-" + key, ignoreCase, a, b).0 == -KeyResult(key, ignoreCase, a, b).0
    ensures KeyResult("-" + key, ignoreCase, a, b).1 == KeyResult(key, ignoreCase, a, b).1
  {
    assert ("-" + key)[1..] == key;
  }

  /** The keys `sortItems` uses. */
  const SortKeys: seq<string> := ["completed", "item"]

  /** `t` with its text lowercased, as the comparator leaves its second argument. */
  function Lowered(t: Todo): Todo
  {
    t.(item := Lower(t.item))
  }

  /** The order `fieldSorter(['completed', 'item'], true)(a, b)` returns:
      incomplete todos first; among todos of equal completion, `a.item` as it
      is against `b.item` lowercased. */
  function AsWrittenOrder(a: Todo, b: Todo): int
  {
    if a.completed != b.completed then (if a.completed then 1 else -1)
    else StrCompare(a.item, Lower(b.item))
  }

  /** The comparator `sortItems` builds returns `AsWrittenOrder` and
      lowercases `b.item` in place. */
  lemma SortComparator(a: Todo, b: Todo)
    ensures FieldSorter(SortKeys, true, a, b) == (AsWrittenOrder(a, b), Lowered(b))
  {
    assert SortKeys[1..] == ["item"];
    assert SortKeys[1..][1..] == [];
    CompletedKey(true, a, b);
    var item := KeyResult("item", true, a, b);
    assert "item"[0] != '-';
    assert item == (StrCompare(a.item, Lower(b.item)), Lowered(b));
    assert FieldSorter(["item"], true, a, b) == item;
  }

  // ---------------------------------------------------------------------------
  // The intended order

  /** The order `fieldSorter(['completed', 'item'], true)` is meant to give:
      incomplete first, then by text compared without regard to case. */
  function KeyOrder(a: Todo, b: Todo): int
  {
    if a.completed != b.completed then (if a.completed then 1 else -1)
    else StrCompare(Lower(a.item), Lower(b.item))
  }

  /** One key of the comparator with line 113 reading `a[o]`: with
      `ignoreCase`, both properties are lowercased in place before they are
      compared. Returns the key's result and the new values of `a` and `b`. */
  function CorrectedKeyResult(key: string, ignoreCase: bool, a: Todo, b: Todo): (int, Todo, Todo)
  {
    var (dir, o) := if |key| > 0 && key[0] == '-' then (-1, key[1..]) else (1, key);
    var both := ignoreCase && Property(a, o).Str? && Property(b, o).Str?;
    var a' := if both then WithString(a, o, Lower(Property(a, o).s)) else a;
    var b' := if both then WithString(b, o, Lower(Property(b, o).s)) else b;
    var x, y := Property(a', o), Property(b', o);
    (if Greater(x, y) then dir else if Greater(y, x) then -dir else 0, a', b')
  }

  /** `fieldSorter` with the corrected key: the first non-zero key result,
      with every key's side effect on `a` and `b`. */
  function CorrectedFieldSorter(keys: seq<string>, ignoreCase: bool, a: Todo, b: Todo): (r: (int, Todo, Todo))
    ensures r.0 == -1 || r.0 == 0 || r.0 == 1
  {
    if keys == [] then (0, a, b)
    else
      var (first, a1, b1) := CorrectedKeyResult(keys[0], ignoreCase, a, b);
      var (rest, a2, b2) := CorrectedFieldSorter(keys[1..], ignoreCase, a1, b1);
      (if first != 0 then first else rest, a2, b2)
  }

  /** The corrected comparator of `sortItems` answers with the intended order
      and lowercases the text of both arguments, so (by
      `KeyOrderAntisymmetric` and `KeyOrderTransitive`) it is a consistent
      comparator. */
  lemma CorrectedComparator(a: Todo, b: Todo)
    ensures CorrectedFieldSorter(SortKeys, true, a, b) == (KeyOrder(a, b), Lowered(a), Lowered(b))
    ensures CorrectedFieldSorter(SortKeys, true, a, b).0 == -CorrectedFieldSorter(SortKeys, true, b, a).0
  {
    assert SortKeys[1..] == ["item"];
    assert SortKeys[1..][1..] == [];
    assert "item"[0] != '-';
    assert CorrectedKeyResult("completed", true, a, b).1 == a;
    forall x: Todo, y: Todo
      ensures CorrectedFieldSorter(["item"], true, x, y) == (StrCompare(Lower(x.item), Lower(y.item)), Lowered(x), Lowered(y))
    {
      assert CorrectedKeyResult("item", true, x, y) == (StrCompare(Lower(x.item), Lower(y.item)), Lowered(x), Lowered(y));
    }
    KeyOrderAntisymmetric(a, b);
  }

  lemma KeyOrderAntisymmetric(a: Todo, b: Todo)
    ensures KeyOrder(a, b) == -KeyOrder(b, a)
  {
    StrCompareAntisymmetric(Lower(a.item), Lower(b.item));
  }

  lemma KeyOrderTransitive(a: Todo, b: Todo, c: Todo)
    requires KeyOrder(a, b) <= 0 && KeyOrder(b, c) <= 0
    ensures KeyOrder(a, c) <= 0
  {
    if a.completed == b.completed == c.completed {
      StrCompareTransitive(Lower(a.item), Lower(b.item), Lower(c.item));
    }
  }

  /** Lowercasing the text does not move a todo in the intended order. */
  lemma KeyOrderIgnoresCase(a: Todo, b: Todo)
    ensures KeyOrder(Lowered(a), b) == KeyOrder(a, b) == KeyOrder(a, Lowered(b))
  {
    LowerIsLower(a.item);
    LowerIsLower(b.item);
  }

  /** When the first argument's text is already lower case, the comparator
      as written gives the intended order. */
  lemma AsWrittenAgreesWhenLower(a: Todo, b: Todo)
    requires IsLower(a.item)
    ensures AsWrittenOrder(a, b) == KeyOrder(a, b)
  {
  }

  /** The comparator as written is not antisymmetric: for two incomplete
      todos "B" and "a" it answers "before" in both orders, because only the
      second argument is lowercased ('B' precedes 'a' but follows 'b'). */
  lemma AsWrittenNotAntisymmetric()
    ensures FieldSorter(SortKeys, true, Todo("", "B", false, 0, 0), Todo("", "a", false, 0, 0)).0 == -1
    ensures FieldSorter(SortKeys, true, Todo("", "a", false, 0, 0), Todo("", "B", false, 0, 0)).0 == -1
    ensures KeyOrder(Todo("", "a", false, 0, 0), Todo("", "B", false, 0, 0)) == -1
  {
    SortComparator(Todo("", "B", false, 0, 0), Todo("", "a", false, 0, 0));
    SortComparator(Todo("", "a", false, 0, 0), Todo("", "B", false, 0, 0));
    assert Lower("a") == "a";
    assert Lower("B") == "b";
  }
}
