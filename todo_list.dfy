/** The to-do list state of `TodoComponent` (src/app/todo/todo.component.ts).
    Every HTTP round trip is an `Outcome` parameter: the value the success
    callback receives, or the error the error callback receives. */
module TodoList {
  import opened Wrappers
  import opened Todos
  import opened Sorting
  import ListOps

  /** A `Todo` object on the heap. The list, the template and the callbacks
      share it: `completeTodo` and `deleteTodo` flip its `completed` in place,
      the comparator lowercases its `item` in place, and `indexOf` finds it by
      identity. */
  class TodoObject {
    var state: Todo

    constructor(t: Todo)
      ensures state == t
    {
      state := t;
    }
  }

  predicate Distinct<T(==)>(s: seq<T>)
  {
    forall p, q :: 0 <= p < q < |s| ==> s[p] != s[q]
  }

  /** `t` with its `completed` flag negated. */
  function Flip(t: Todo): Todo
  {
    t.(completed := !t.completed)
  }

  /** The records the objects of a list currently hold. */
  function States(l: seq<TodoObject>): (s: seq<Todo>)
    reads l
    ensures |s| == |l| && forall k :: 0 <= k < |l| ==> s[k] == l[k].state
  {
    seq(|l|, k requires 0 <= k < |l| reads l => l[k].state)
  }

  // ---------------------------------------------------------------------------
  // Counting open items

  /** `filter(item => item.completed === false).length`. */
  function CountOpen(s: seq<Todo>): (n: nat)
    ensures n <= |s|
  {
    if s == [] then 0 else (if s[0].completed then 0 else 1) + CountOpen(s[1..])
  }

  function Completions(s: seq<Todo>): (c: seq<bool>)
    ensures |c| == |s| && forall k :: 0 <= k < |s| ==> c[k] == s[k].completed
  {
    seq(|s|, k requires 0 <= k < |s| => s[k].completed)
  }

  /** The open count is the number of `false` completion flags, so it depends
      only on the flags and not on their order. */
  lemma {:induction false} CountOpenIsMultiplicity(s: seq<Todo>)
    ensures CountOpen(s) == multiset(Completions(s))[false]
  {
    if s != [] {
      CountOpenIsMultiplicity(s[1..]);
      assert Completions(s) == [s[0].completed] + Completions(s[1..]);
    }
  }

  /** Appending one todo adds one to the open count exactly when it is not completed. */
  lemma CountOpenAppend(s: seq<Todo>, t: Todo)
    ensures CountOpen(s + [t]) == CountOpen(s) + (if t.completed then 0 else 1)
  {
    CountOpenIsMultiplicity(s + [t]);
    CountOpenIsMultiplicity(s);
    assert Completions(s + [t]) == Completions(s) + [t.completed];
  }

  /** Flipping one todo's `completed` moves the open count by exactly one. */
  lemma CountOpenFlip(s: seq<Todo>, k: nat)
    requires k < |s|
    ensures CountOpen(s[k := s[k].(completed := !s[k].completed)])
         == CountOpen(s) + (if s[k].completed then 1 else -1)
  {
    var s' := s[k := s[k].(completed := !s[k].completed)];
    CountOpenIsMultiplicity(s');
    CountOpenIsMultiplicity(s);
    assert Completions(s') == Completions(s)[k := !s[k].completed];
  }

  // ---------------------------------------------------------------------------
  // The order `sortItems` produces

  /** Incomplete todos before completed ones. */
  predicate Partitioned(s: seq<Todo>)
  {
    forall p, q :: 0 <= p < q < |s| && s[p].completed ==> s[q].completed
  }

  /** Sorted by the intended order: incomplete first, then by text without regard to case. */
  predicate SortedIgnoringCase(s: seq<Todo>)
  {
    forall p, q :: 0 <= p < q < |s| ==> KeyOrder(s[p], s[q]) <= 0
  }

  /** `x` may precede `y`: by completion, and also by text when `byText` holds. */
  predicate InOrder(x: Todo, y: Todo, byText: bool)
  {
    (x.completed ==> y.completed) && (byText ==> KeyOrder(x, y) <= 0)
  }

  lemma InOrderTransitive(x: Todo, y: Todo, z: Todo, byText: bool)
    requires InOrder(x, y, byText) && InOrder(y, z, byText)
    ensures InOrder(x, z, byText)
  {
    if byText { KeyOrderTransitive(x, y, z); }
  }

  /** `s` with the elements at `j - 1` and `j` exchanged. */
  function Swap<T>(s: seq<T>, j: nat): (r: seq<T>)
    requires 0 < j < |s|
    ensures |r| == |s| && r[j - 1] == s[j] && r[j] == s[j - 1]
    ensures forall k :: 0 <= k < |s| && k != j - 1 && k != j ==> r[k] == s[k]
    ensures multiset(r) == multiset(s)
  {
    s[j - 1 := s[j]][j := s[j - 1]]
  }

  lemma SwapKeepsDistinct<T>(s: seq<T>, j: nat)
    requires 0 < j < |s| && Distinct(s)
    ensures Distinct(Swap(s, j))
  {
    var r := Swap(s, j);
    forall p, q | 0 <= p < q < |r| ensures r[p] != r[q] {
      var p' := if p == j - 1 then j else if p == j then j - 1 else p;
      var q' := if q == j - 1 then j else if q == j then j - 1 else q;
      assert r[p] == s[p'] && r[q] == s[q'] && p' != q';
    }
  }

  lemma SwapKeepsCompletions(s: seq<Todo>, j: nat)
    requires 0 < j < |s|
    ensures multiset(Completions(Swap(s, j))) == multiset(Completions(s))
  {
    assert Completions(Swap(s, j)) == Swap(Completions(s), j);
  }

  /** Lowercasing an element's text leaves the completion flags as they are. */
  lemma LoweringKeepsCompletions(s: seq<Todo>, j: nat)
    requires j < |s|
    ensures Completions(s[j := Lowered(s[j])]) == Completions(s)
  {
  }

  lemma DistinctRemove<T>(s: seq<T>, i: nat)
    requires i < |s| && Distinct(s)
    ensures Distinct(s[..i] + s[i + 1..])
    ensures s[i] !in s[..i] + s[i + 1..]
  {
    var r := s[..i] + s[i + 1..];
    forall p, q | 0 <= p < q < |r| ensures r[p] != r[q] {
      assert r[p] == s[if p < i then p else p + 1];
      assert r[q] == s[if q < i then q else q + 1];
    }
    forall p | 0 <= p < |r| ensures r[p] != s[i] {
      assert r[p] == s[if p < i then p else p + 1];
    }
  }

  /** During one insertion pass: element `j` is the one being inserted,
      the other elements up to `i` are in order, and `j` precedes those
      after it. */
  predicate OrderedExcept(v: seq<Todo>, j: nat, i: nat, byText: bool)
    requires j <= i < |v|
  {
    (forall p, q | 0 <= p < q <= i && p != j && q != j :: InOrder(v[p], v[q], byText))
    && (forall q | j < q <= i :: InOrder(v[j], v[q], byText))
  }

  predicate LowerUpTo(v: seq<Todo>, i: nat, byText: bool)
    requires i < |v|
  {
    byText ==> forall k | 0 <= k <= i :: IsLower(v[k].item)
  }

  /** When the comparator puts element `j - 1` after element `j`, exchanging
      them keeps the pass's ordering facts. */
  lemma SwapStep(v: seq<Todo>, j: nat, i: nat, byText: bool)
    requires 0 < j <= i < |v|
    requires OrderedExcept(v, j, i, byText) && LowerUpTo(v, i, byText)
    requires AsWrittenOrder(v[j - 1], v[j]) > 0
    ensures OrderedExcept(Swap(v, j), j - 1, i, byText) && LowerUpTo(Swap(v, j), i, byText)
  {
    if byText {
      AsWrittenAgreesWhenLower(v[j - 1], v[j]);
      KeyOrderAntisymmetric(v[j - 1], v[j]);
    }
    var w := Swap(v, j);
    assert InOrder(w[j - 1], w[j], byText);
  }

  /** When the comparator does not put element `j - 1` after element `j`
      (or `j` is at the front), the prefix up to `i` is in order. */
  lemma StopStep(v: seq<Todo>, j: nat, i: nat, byText: bool)
    requires j <= i < |v|
    requires OrderedExcept(v, j, i, byText) && LowerUpTo(v, i, byText)
    requires j > 0 ==> AsWrittenOrder(v[j - 1], v[j]) <= 0
    ensures forall p, q | 0 <= p < q <= i :: InOrder(v[p], v[q], byText)
  {
    if j > 0 {
      if byText {
        AsWrittenAgreesWhenLower(v[j - 1], v[j]);
      }
      forall p | 0 <= p < j - 1
        ensures InOrder(v[p], v[j], byText)
      {
        InOrderTransitive(v[p], v[j - 1], v[j], byText);
      }
    }
  }

  // ---------------------------------------------------------------------------
  // The validation message

  /** The form control of the new-item field, as `setMessage` reads it:
      `errors` is `null` or the keys of the errors object in order. */
  datatype Control = Control(touched: bool, dirty: bool, errors: Option<seq<string>>)

  /** `validationMessages[key]`; any other key reads `undefined`, which
      `join` renders as the empty string. */
  function ValidationMessage(key: string): string
  {
    if key == "required" then "Todo item is required."
    else if key == "minlength" then "Must be at least 3 characters"
    else ""
  }

  function Messages(keys: seq<string>): (ms: seq<string>)
    ensures |ms| == |keys| && forall k :: 0 <= k < |keys| ==> ms[k] == ValidationMessage(keys[k])
  {
    seq(|keys|, k requires 0 <= k < |keys| => ValidationMessage(keys[k]))
  }

  /** `ms.join(sep)`. */
  function Join(ms: seq<string>, sep: string): string
  {
    if ms == [] then ""
    else if |ms| == 1 then ms[0]
    else ms[0] + sep + Join(ms[1..], sep)
  }

  /** Where the `k`-th part starts in `Join(ms, sep)`. */
  function Offset(ms: seq<string>, sep: string, k: nat): nat
    requires k <= |ms|
  {
    if k == 0 then 0 else |ms[0]| + |sep| + Offset(ms[1..], sep, k - 1)
  }

  /** `part` occurs in `m` starting at index `at`. */
  predicate PartAt(m: string, part: string, at: nat)
  {
    at + |part| <= |m| && m[at..at + |part|] == part
  }

  /** Each part appears in the joined string at its offset, in order, and is
      followed by the separator unless it is the last. */
  lemma {:induction false} JoinPlacesEach(ms: seq<string>, sep: string, k: nat)
    requires k < |ms|
    ensures PartAt(Join(ms, sep), ms[k], Offset(ms, sep, k))
    ensures k + 1 < |ms| ==> PartAt(Join(ms, sep), sep, Offset(ms, sep, k) + |ms[k]|)
    ensures k + 1 == |ms| ==> |Join(ms, sep)| == Offset(ms, sep, k) + |ms[k]|
  {
    if k == 0 {
      if |ms| > 1 {
        assert Join(ms, sep) == ms[0] + sep + Join(ms[1..], sep);
      }
    } else {
      JoinPlacesEach(ms[1..], sep, k - 1);
      var head := ms[0] + sep;
      assert Join(ms, sep) == head + Join(ms[1..], sep);
      assert Offset(ms, sep, k) == |head| + Offset(ms[1..], sep, k - 1);
    }
  }

  /** The message `setMessage` shows for a control. */
  function FormErrorMessage(c: Control): (m: string)
    ensures !(c.touched || c.dirty) || c.errors.None? ==> m == ""
  {
    if (c.touched || c.dirty) && c.errors.Some? then Join(Messages(c.errors.value), " ") else ""
  }

  /** When the control has been interacted with and has errors, the message
      for each error key appears in key order, separated by single spaces. */
  lemma FormErrorMessageListsEachKey(c: Control, k: nat)
    requires (c.touched || c.dirty) && c.errors.Some? && k < |c.errors.value|
    ensures var ms := Messages(c.errors.value);
      PartAt(FormErrorMessage(c), ValidationMessage(c.errors.value[k]), Offset(ms, " ", k))
      && (k + 1 < |ms| ==> PartAt(FormErrorMessage(c), " ", Offset(ms, " ", k) + |ms[k]|))
      && (k + 1 == |ms| ==> |FormErrorMessage(c)| == Offset(ms, " ", k) + |ms[k]|)
  {
    JoinPlacesEach(Messages(c.errors.value), " ", k);
  }

  /** A required-field error on a touched control shows just its message. */
  lemma RequiredMessage(dirty: bool)
    ensures FormErrorMessage(Control(true, dirty, Some(["required"]))) == "Todo item is required."
  {
  }

  // ---------------------------------------------------------------------------
  // The component

  class TodoComponent {
    var todoList: seq<TodoObject>
    var errorMessage: Error
    var openItemCount: int
    var formErrorMessage: string

    /** The list never holds the same object twice: it is filled from a
        parsed response, and `save` pushes the freshly parsed result. */
    ghost predicate Valid()
      reads this
    {
      Distinct(todoList)
    }

    constructor()
      ensures Valid()
      ensures todoList == [] && openItemCount == 0 && errorMessage == "" && formErrorMessage == ""
    {
      todoList := [];
      openItemCount := 0;
      errorMessage := "";
      formErrorMessage := "";
    }

    method CalculateOpenItems()
      modifies this`openItemCount
      ensures openItemCount == CountOpen(States(todoList))
    {
      openItemCount := CountOpen(States(todoList));
    }

    /** `save()`: the server's record is pushed, the open count goes up by
        one whatever that record's `completed` is, and the list is sorted.
        The count stays exact only when the new record is incomplete. */
    method Save(response: Outcome<TodoObject>)
      requires Valid()
      requires response.Success? ==> response.value !in todoList
      modifies this, todoList, if response.Success? then [response.value] else []
      ensures Valid() && formErrorMessage == old(formErrorMessage)
      ensures response.Success? ==>
        |todoList| == old(|todoList|) + 1 && response.value in todoList
        && multiset(todoList) == multiset(old(todoList)) + multiset{response.value}
        && openItemCount == old(openItemCount) + 1
        && CountOpen(States(todoList))
           == old(CountOpen(States(todoList))) + (if old(response.value.state.completed) then 0 else 1)
        && Partitioned(States(todoList))
        && (old(IsLower((todoList + [response.value])[0].state.item)) ==> SortedIgnoringCase(States(todoList)))
        && errorMessage == old(errorMessage)
      ensures response.Success? ==>
        (forall k | 0 <= k < old(|todoList|) + 1 ::
           (old(todoList) + [response.value])[k].state
           == if k == 0 then old((todoList + [response.value])[k].state)
              else Lowered(old((todoList + [response.value])[k].state)))
        && (forall t | t in old(todoList) + [response.value] ::
              t.state == old(t.state) || t.state == Lowered(old(t.state)))
      ensures response.Failure? ==>
        todoList == old(todoList) && (forall t | t in todoList :: t.state == old(t.state))
        && openItemCount == old(openItemCount) && errorMessage == response.error
    {
      match response
      case Success(result) =>
        Push(result);
        SortItems();
        assert result in multiset(old(todoList)) + multiset{result};
      case Failure(e) =>
        errorMessage := e;
    }

    /** `todoList.push(result)` followed by `openItemCount++`. */
    method Push(result: TodoObject)
      requires Valid() && result !in todoList
      modifies this`todoList, this`openItemCount
      ensures Valid()
      ensures todoList == old(todoList) + [result] && openItemCount == old(openItemCount) + 1
      ensures CountOpen(States(todoList))
        == old(CountOpen(States(todoList))) + (if result.state.completed then 0 else 1)
    {
      ghost var before := States(todoList);
      todoList := todoList + [result];
      assert States(todoList) == before + [result.state];
      CountOpenAppend(before, result.state);
      openItemCount := openItemCount + 1;
    }

    /** `getTodoListAll()`: the fetched list replaces the old one, is counted,
        then sorted. A failed fetch only records the error. */
    method GetTodoListAll(response: Outcome<seq<TodoObject>>)
      requires Valid()
      requires response.Success? ==> Distinct(response.value)
      modifies this, if response.Success? then response.value else []
      ensures Valid() && formErrorMessage == old(formErrorMessage)
      ensures response.Success? ==>
        multiset(todoList) == multiset(response.value)
        && openItemCount == CountOpen(States(todoList)) == old(CountOpen(States(response.value)))
        && Partitioned(States(todoList))
        && (old(|response.value| > 0 && IsLower(response.value[0].state.item)) ==> SortedIgnoringCase(States(todoList)))
        && (forall k | 0 <= k < |response.value| ::
              response.value[k].state == if k == 0 then old(response.value[k].state) else Lowered(old(response.value[k].state)))
        && (forall t | t in response.value :: t.state == old(t.state) || t.state == Lowered(old(t.state)))
        && errorMessage == old(errorMessage)
      ensures response.Failure? ==>
        todoList == old(todoList) && openItemCount == old(openItemCount) && errorMessage == response.error
    {
      match response
      case Success(data) =>
        todoList := data;
        CalculateOpenItems();
        SortItems();
      case Failure(e) =>
        errorMessage := e;
    }

    /** Flips `todo.completed` in place; the open count of the list moves by
        one exactly when `todo` is one of its entries. */
    method Toggle(todo: TodoObject)
      requires Valid()
      modifies todo
      ensures todo.state == Flip(old(todo.state))
      ensures CountOpen(States(todoList))
        == old(CountOpen(States(todoList)))
           + (if todo !in todoList then 0 else if old(todo.state.completed) then 1 else -1)
    {
      ghost var before := States(todoList);
      todo.state := todo.state.(completed := !todo.state.completed);
      if todo in todoList {
        var k := ListOps.IndexOf(todoList, todo);
        assert States(todoList) == before[k := before[k].(completed := !before[k].completed)];
        CountOpenFlip(before, k);
      } else {
        assert States(todoList) == before;
      }
    }

    /** `completeTodo(todo)`: `completed` is flipped before the request; on
        success the list is recounted and sorted, on failure the flip is
        undone. */
    method CompleteTodo(todo: TodoObject, response: Outcome<Todo>)
      requires Valid()
      modifies this, todoList, todo
      ensures Valid() && formErrorMessage == old(formErrorMessage)
      ensures response.Success? ==>
        (todo.state == Flip(old(todo.state)) || todo.state == Lowered(Flip(old(todo.state))))
        && (forall t | t in old(todoList) && t != todo :: t.state == old(t.state) || t.state == Lowered(old(t.state)))
        && (forall k | 0 <= k < old(|todoList|) ::
              old(todoList)[k].state
              == var before := if old(todoList)[k] == todo then Flip(old(todo.state)) else old(todoList[k].state);
                 if k == 0 then before else Lowered(before))
        && (old(|todoList| > 0 && IsLower(todoList[0].state.item)) ==> SortedIgnoringCase(States(todoList)))
        && multiset(todoList) == multiset(old(todoList))
        && openItemCount == CountOpen(States(todoList))
        && openItemCount == old(CountOpen(States(todoList)))
           + (if todo !in old(todoList) then 0 else if old(todo.state.completed) then 1 else -1)
        && Partitioned(States(todoList))
        && errorMessage == old(errorMessage)
      ensures response.Failure? ==>
        todo.state == old(todo.state)
        && todoList == old(todoList) && (forall t | t in todoList :: t.state == old(t.state))
        && openItemCount == old(openItemCount) && errorMessage == response.error
    {
      Toggle(todo);
      match response
      case Success(_) =>
        Refresh();
      case Failure(e) =>
        todo.state := todo.state.(completed := !todo.state.completed);
        errorMessage := e;
    }

    /** `calculateOpenItems()` then `sortItems()`. */
    method Refresh()
      requires Valid()
      modifies this`todoList, this`openItemCount, todoList
      ensures Valid()
      ensures multiset(todoList) == multiset(old(todoList))
      ensures openItemCount == CountOpen(States(todoList)) == old(CountOpen(States(todoList)))
      ensures Partitioned(States(todoList))
      ensures old(|todoList| > 0 && IsLower(todoList[0].state.item)) ==> SortedIgnoringCase(States(todoList))
      ensures forall k | 0 <= k < |old(todoList)| ::
        old(todoList)[k].state == if k == 0 then old(todoList[k].state) else Lowered(old(todoList[k].state))
      ensures forall t | t in old(todoList) :: t.state == old(t.state) || t.state == Lowered(old(t.state))
    {
      CalculateOpenItems();
      SortItems();
    }

    /** `deleteTodo(todo)`: on success the entry at `indexOf(todo)` is spliced
        out; when `todo` is not in the list that index is -1 and `splice`
        removes the last entry instead. On failure `completed` is flipped,
        though nothing flipped it before, and the list is neither recounted
        nor sorted. */
    method DeleteTodo(todo: TodoObject, response: Outcome<()>)
      requires Valid()
      modifies this, todo
      ensures Valid() && formErrorMessage == old(formErrorMessage)
      ensures response.Success? ==>
        (todo in old(todoList) ==>
           todoList == old(todoList)[..ListOps.IndexOf(old(todoList), todo)]
                       + old(todoList)[ListOps.IndexOf(old(todoList), todo) + 1..]
           && todo !in todoList)
        && (todo !in old(todoList) ==>
           todoList == if old(todoList) == [] then [] else old(todoList)[..|old(todoList)| - 1])
        && todo.state == old(todo.state)
        && openItemCount == CountOpen(States(todoList))
        && errorMessage == old(errorMessage)
      ensures response.Failure? ==>
        todoList == old(todoList)
        && todo.state == old(todo.state).(completed := !old(todo.state.completed))
        && openItemCount == old(openItemCount) && errorMessage == response.error
        && (todo in todoList && old(openItemCount == CountOpen(States(todoList))) ==>
              openItemCount != CountOpen(States(todoList)))
    {
      match response
      case Success(_) =>
        RemoveEntry(todo);
        CalculateOpenItems();
      case Failure(e) =>
        Toggle(todo);
        errorMessage := e;
    }

    /** `todoList.splice(todoList.indexOf(todo), 1)`. */
    method RemoveEntry(todo: TodoObject)
      requires Valid()
      modifies this`todoList
      ensures Valid()
      ensures todo in old(todoList) ==>
        todoList == old(todoList)[..ListOps.IndexOf(old(todoList), todo)]
                    + old(todoList)[ListOps.IndexOf(old(todoList), todo) + 1..]
        && todo !in todoList
      ensures todo !in old(todoList) ==>
        todoList == if old(todoList) == [] then [] else old(todoList)[..|old(todoList)| - 1]
    {
      var index := ListOps.IndexOf(todoList, todo);
      if 0 <= index {
        DistinctRemove(todoList, index);
      } else if todoList != [] {
        DistinctRemove(todoList, |todoList| - 1);
        assert todoList[..|todoList| - 1] + todoList[|todoList|..] == todoList[..|todoList| - 1];
      }
      todoList := ListOps.Splice(todoList, index, 1);
    }

    /** `setMessage(c)`. */
    method SetMessage(c: Control)
      modifies this`formErrorMessage
      ensures formErrorMessage == FormErrorMessage(c)
    {
      formErrorMessage := FormErrorMessage(c);
    }

    /** The closure `fieldSorter(keys, ignoreCase)` called with `a` and `b`. */
    method Compare(keys: seq<string>, ignoreCase: bool, a: TodoObject, b: TodoObject) returns (order: int)
      requires a != b
      modifies b
      ensures (order, b.state) == FieldSorter(keys, ignoreCase, a.state, old(b.state))
    {
      var r := FieldSorter(keys, ignoreCase, a.state, b.state);
      order := r.0;
      b.state := r.1;
    }

    /** `todoList.sort(fieldSorter(['completed', 'item'], true))`. The language
        leaves the algorithm to the engine; this is straight insertion sort,
        which passes the element being inserted as the comparator's second
        argument, so every element but the first has its text lowercased. */
    method SortItems()
      requires Valid()
      modifies this`todoList, todoList
      ensures Valid()
      ensures multiset(todoList) == multiset(old(todoList))
      ensures forall k | 0 <= k < |old(todoList)| ::
        old(todoList)[k].state == if k == 0 then old(todoList[k].state) else Lowered(old(todoList[k].state))
      ensures forall t | t in old(todoList) :: t.state == old(t.state) || t.state == Lowered(old(t.state))
      ensures CountOpen(States(todoList)) == old(CountOpen(States(todoList)))
      ensures Partitioned(States(todoList))
      ensures old(|todoList| > 0 && IsLower(todoList[0].state.item)) ==> SortedIgnoringCase(States(todoList))
    {
      var n := |todoList|;
      if n == 0 {
        return;
      }
      ghost var orig := todoList;
      ghost var S0 := States(todoList);
      ghost var vals := S0;
      ghost var byText := IsLower(S0[0].item);
      SortStart(orig, S0, byText);
      vals := InsertEach(orig, S0, byText);
      SortDone(orig, S0, vals, byText);
      forall t | t in orig
        ensures t.state == old(t.state) || t.state == Lowered(old(t.state))
      {
        var k :| 0 <= k < |orig| && orig[k] == t;
      }
    }

    /** The passes of the insertion sort, one per element after the first. */
    method InsertEach(ghost orig: seq<TodoObject>, ghost S0: seq<Todo>, ghost byText: bool)
      returns (ghost vals: seq<Todo>)
      requires SortInvariant(orig, S0, S0, 1, byText)
      modifies this`todoList, orig
      ensures SortInvariant(orig, S0, vals, |orig|, byText)
    {
      vals := S0;
      var i := 1;
      while i < |todoList|
        invariant SortInvariant(orig, S0, vals, i, byText)
      {
        vals := InsertIntoPrefix(i, orig, S0, vals, byText);
        i := i + 1;
      }
    }

    /** Before the first pass the one-element prefix is trivially ordered. */
    lemma SortStart(orig: seq<TodoObject>, S0: seq<Todo>, byText: bool)
      requires todoList == orig && |orig| > 0 && Distinct(orig) && S0 == States(orig)
      requires byText == IsLower(S0[0].item)
      ensures SortInvariant(orig, S0, S0, 1, byText)
    {
    }

    /** After the last pass the whole list is ordered and the open count is unchanged. */
    lemma SortDone(orig: seq<TodoObject>, S0: seq<Todo>, vals: seq<Todo>, byText: bool)
      requires SortInvariant(orig, S0, vals, |orig|, byText)
      ensures Distinct(todoList) && multiset(todoList) == multiset(orig)
      ensures forall k | 0 <= k < |orig| :: orig[k].state == if k == 0 then S0[k] else Lowered(S0[k])
      ensures States(todoList) == vals
      ensures CountOpen(vals) == CountOpen(S0)
      ensures Partitioned(vals)
      ensures byText ==> SortedIgnoringCase(vals)
    {
      CountOpenIsMultiplicity(vals);
      CountOpenIsMultiplicity(S0);
    }

    /** What holds after the first `i` elements of `orig` have been sorted
        into `todoList[..i]`: `vals` mirrors the objects' records, each of
        the elements `1..i-1` has had its text lowercased, the prefix is
        ordered, and (when `byText`) its texts are lower case. */
    ghost predicate SortInvariant(orig: seq<TodoObject>, S0: seq<Todo>, vals: seq<Todo>, i: nat, byText: bool)
      reads this, orig, todoList
    {
      |orig| == |S0| == |vals| == |todoList| && 1 <= i <= |orig|
      && Distinct(orig) && Distinct(todoList)
      && multiset(todoList) == multiset(orig) && todoList[i..] == orig[i..]
      && (forall k | 0 <= k < |todoList| :: todoList[k].state == vals[k])
      && (forall k | 0 <= k < |orig| :: orig[k].state == if 1 <= k < i then Lowered(S0[k]) else S0[k])
      && multiset(Completions(vals)) == multiset(Completions(S0))
      && (forall p, q | 0 <= p < q < i :: InOrder(vals[p], vals[q], byText))
      && (byText ==> forall k | 0 <= k < i :: IsLower(vals[k].item))
    }

    /** One pass of the insertion sort: element `i` moves down past every
        element the comparator puts after it. */
    method InsertIntoPrefix(i: nat, ghost orig: seq<TodoObject>, ghost S0: seq<Todo>, ghost vals: seq<Todo>, ghost byText: bool)
      returns (ghost vals': seq<Todo>)
      requires SortInvariant(orig, S0, vals, i, byText) && i < |orig|
      modifies this`todoList, orig[i]
      ensures SortInvariant(orig, S0, vals', i + 1, byText)
    {
      var order;
      order, vals' := StartPass(i, orig, S0, vals, byText);
      vals' := SinkFrom(i, i, order, orig, S0, vals', byText);
    }

    /** The rest of the pass, with element `i` at `j` and `order` the result
        of comparing it with the element before it. */
    method SinkFrom(i: nat, j: nat, order: int, ghost orig: seq<TodoObject>, ghost S0: seq<Todo>, ghost vals: seq<Todo>, ghost byText: bool)
      returns (ghost vals': seq<Todo>)
      requires PassInvariant(orig, S0, vals, i, j, byText)
      requires order > 0 ==> j > 0
      requires j > 0 ==> order == AsWrittenOrder(vals[j - 1], vals[j])
      modifies this`todoList, orig[i]
      ensures SortInvariant(orig, S0, vals', i + 1, byText)
      decreases j
    {
      if order > 0 {
        var next;
        next, vals' := SwapDown(i, j, orig, S0, vals, byText);
        vals' := SinkFrom(i, j - 1, next, orig, S0, vals', byText);
      } else {
        FinishPass(i, j, orig, S0, vals, byText);
        vals' := vals;
      }
    }

    /** During the pass that inserts element `i` of `orig`, now at `j`: the
        records are mirrored in `vals`, element `i` has been lowercased, and
        the ordering facts of `OrderedExcept` hold. */
    ghost predicate PassInvariant(orig: seq<TodoObject>, S0: seq<Todo>, vals: seq<Todo>, i: nat, j: nat, byText: bool)
      reads this, orig, todoList
    {
      |orig| == |S0| == |vals| == |todoList| && j <= i < |orig|
      && Distinct(orig) && Distinct(todoList)
      && multiset(todoList) == multiset(orig)
      && todoList[j] == orig[i] && todoList[i + 1..] == orig[i + 1..]
      && (forall k | 0 <= k < |todoList| :: todoList[k].state == vals[k])
      && (forall k | 0 <= k < |orig| :: orig[k].state == if 1 <= k <= i then Lowered(S0[k]) else S0[k])
      && multiset(Completions(vals)) == multiset(Completions(S0))
      && OrderedExcept(vals, j, i, byText) && LowerUpTo(vals, i, byText)
    }

    /** The first comparison of a pass, which lowercases element `i`. */
    method StartPass(i: nat, ghost orig: seq<TodoObject>, ghost S0: seq<Todo>, ghost vals: seq<Todo>, ghost byText: bool)
      returns (order: int, ghost vals': seq<Todo>)
      requires SortInvariant(orig, S0, vals, i, byText) && i < |orig|
      modifies orig[i]
      ensures PassInvariant(orig, S0, vals', i, i, byText)
      ensures order == AsWrittenOrder(vals'[i - 1], vals'[i])
    {
      order := Compare(SortKeys, true, todoList[i - 1], todoList[i]);
      SortComparator(vals[i - 1], vals[i]);
      LoweringKeepsCompletions(vals, i);
      LowerIsLower(vals[i].item);
      vals' := vals[i := Lowered(vals[i])];
      SortComparator(vals'[i - 1], vals'[i]);
    }

    /** The comparator put the element before `j` after it: exchange the two
        and, unless the front is reached, compare with the next one down. */
    method SwapDown(i: nat, j: nat, ghost orig: seq<TodoObject>, ghost S0: seq<Todo>, ghost vals: seq<Todo>, ghost byText: bool)
      returns (order: int, ghost vals': seq<Todo>)
      requires PassInvariant(orig, S0, vals, i, j, byText) && j > 0
      requires AsWrittenOrder(vals[j - 1], vals[j]) > 0
      modifies this`todoList, orig[i]
      ensures PassInvariant(orig, S0, vals', i, j - 1, byText)
      ensures j - 1 > 0 ==> order == AsWrittenOrder(vals'[j - 2], vals'[j - 1])
      ensures j - 1 == 0 ==> order == 0
    {
      vals' := Exchange(i, j, orig, S0, vals, byText);
      if j - 1 > 0 {
        order := CompareAgain(i, j - 1, orig, S0, vals', byText);
      } else {
        order := 0;
      }
    }

    /** Exchange the elements at `j - 1` and `j`. */
    method Exchange(i: nat, j: nat, ghost orig: seq<TodoObject>, ghost S0: seq<Todo>, ghost vals: seq<Todo>, ghost byText: bool)
      returns (ghost vals': seq<Todo>)
      requires PassInvariant(orig, S0, vals, i, j, byText) && j > 0
      requires AsWrittenOrder(vals[j - 1], vals[j]) > 0
      modifies this`todoList
      ensures PassInvariant(orig, S0, vals', i, j - 1, byText)
    {
      SwapStep(vals, j, i, byText);
      SwapKeepsDistinct(todoList, j);
      SwapKeepsCompletions(vals, j);
      todoList := Swap(todoList, j);
      vals' := Swap(vals, j);
    }

    /** A later comparison of the pass; element `i`, now at `j`, is already
        lowercased, so lowercasing it again changes nothing. */
    method CompareAgain(i: nat, j: nat, ghost orig: seq<TodoObject>, ghost S0: seq<Todo>, ghost vals: seq<Todo>, ghost byText: bool)
      returns (order: int)
      requires PassInvariant(orig, S0, vals, i, j, byText) && j > 0
      modifies orig[i]
      ensures PassInvariant(orig, S0, vals, i, j, byText)
      ensures order == AsWrittenOrder(vals[j - 1], vals[j])
    {
      LowerIsLower(S0[i].item);
      order := Compare(SortKeys, true, todoList[j - 1], todoList[j]);
      SortComparator(vals[j - 1], vals[j]);
    }

    /** The pass ends: element `i` is in place and the prefix up to `i` is ordered. */
    lemma FinishPass(i: nat, j: nat, orig: seq<TodoObject>, S0: seq<Todo>, vals: seq<Todo>, byText: bool)
      requires PassInvariant(orig, S0, vals, i, j, byText)
      requires j > 0 ==> AsWrittenOrder(vals[j - 1], vals[j]) <= 0
      ensures SortInvariant(orig, S0, vals, i + 1, byText)
    {
      StopStep(vals, j, i, byText);
    }
  }
}
