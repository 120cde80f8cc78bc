# Angular to-do client: list state and session, in Dafny

This project models the core of the Angular to-do client `angular-tutorial`:

- the `TodoComponent` holds the list of todos, the count of open items, the
  last error message and the validation message of the new-item field. It
  loads, creates, completes, deletes and sorts todos. Every HTTP round trip is
  a parameter of the operation: `Success(value)` or `Failure(error)`.
- the `AuthService` keeps the signed-in user in one cookie and decides, from
  the reply to each request, whether to store, clear or keep it.
- the `Todo` record and the defaults its constructor applies.

Files:

- `wrappers.dfy` (module `Wrappers`) defines `Option` and `Outcome`.
- `todo.dfy` (module `Todos`) defines the `Todo` record and `NewTodo`.
- `list_ops.dfy` (module `ListOps`) models `indexOf` and `splice` as
  ECMAScript defines them. Two cases matter here: an index of -1, and a
  negative start.
- `sorting.dfy` (module `Sorting`) holds the comparator
  `fieldSorter(fields, ignoreCase)`:
  - as written, it is a function that returns its result together with
    the second argument's new value, because it lowercases that argument
    in place;
  - strings are compared by code point (see "## Left out" for where this
    differs from JavaScript);
  - `KeyOrder` is the intended case-insensitive order;
  - the corrected comparator is proved to produce `KeyOrder`.
- `todo_list.dfy` (module `TodoList`) holds the component itself:
  - Each todo is an object (`TodoObject`, with a mutable `state`), because
    the source flips `completed` on a shared object. It also lowercases
    `item` inside the comparator, and finds entries by reference.
  - `TodoComponent` is a class with the source's four fields.
  - `sortItems` is an in-place insertion sort that calls the comparator
    with the element being inserted as its second argument.
- `auth.dfy` (module `Auth`) holds the session logic:
  - `Step` and `Run` are a reference semantics of the service over a
    sequence of calls;
  - the class `AuthService` has one `cookie` field; each remote call and
    `clearUser` is proved to agree with `Step`.

## Model

| member | source | states |
|---|---|---|
| Todos.NewTodo | src/app/shared/classes/todo.ts:2-8 | `id` is `''` exactly when no id or an empty id is given, and otherwise the given id. `item` is kept as given. `completed` is true only when `true` is passed. Each date is the given one, or else the clock reading. |
| Todos.FreshTodoDefaults | src/app/shared/classes/todo.ts:2-8 | A todo built from its text alone has id `''`, is not completed, and carries the two clock readings. |
| ListOps.IndexOf | src/app/todo/todo.component.ts:89 | The result is -1 exactly when the element is absent. Otherwise it is a position holding the element, with no earlier occurrence. |
| ListOps.Splice | src/app/todo/todo.component.ts:90 | `splice(i, 1)` with `0 <= i < length` removes exactly the entry at `i`. `splice(-1, 1)` removes the last entry, or nothing from an empty list. The result is never longer than the list and only loses elements. |
| Sorting.StrCompareZero | src/app/todo/todo.component.ts:117 | Two strings compare as 0 exactly when they are equal. |
| Sorting.StrCompareAntisymmetric | src/app/todo/todo.component.ts:117 | Swapping two strings negates their comparison. |
| Sorting.StrCompareTransitive | src/app/todo/todo.component.ts:117 | "Not after" on strings is transitive. |
| Sorting.Lower | src/app/todo/todo.component.ts:113-114 | Lowercasing keeps the length, leaves no ASCII capital letter, keeps every other character, and turns each capital into the matching small letter. |
| Sorting.LowerIsLower | src/app/todo/todo.component.ts:113-114 | Lowercasing is idempotent. |
| Sorting.WithString | src/app/todo/todo.component.ts:114 | Assigning a string property sets that property and leaves every other property, text or not, as it was. |
| Sorting.FieldSorter | src/app/todo/todo.component.ts:108-119 | The comparator always answers -1, 0 or 1. It never changes `completed` or the dates of its second argument. It leaves each text field as it was, or lowercases it, and only when `ignoreCase` is set. |
| Sorting.FirstKeyDecides | src/app/todo/todo.component.ts:118 | A key with a non-zero result decides the comparison. |
| Sorting.TiedKeyDefers | src/app/todo/todo.component.ts:118 | A key that ties hands the decision to the remaining keys, which see the second argument as that key left it. |
| Sorting.CompletedKey | src/app/todo/todo.component.ts:117 | On `completed`, an incomplete todo sorts before a completed one, and the second argument is untouched. |
| Sorting.ReversedKey | src/app/todo/todo.component.ts:110-111 | A leading `-` negates a key's result and keeps its side effect. |
| Sorting.SortComparator | src/app/todo/todo.component.ts:108-123 | The comparator `sortItems` builds answers with the order of `completed`, then `a.item` against `b.item` lowercased. It lowercases `b.item` in place. |
| Sorting.KeyOrderAntisymmetric | src/app/todo/todo.component.ts:121-123 | The intended order is antisymmetric. |
| Sorting.KeyOrderTransitive | src/app/todo/todo.component.ts:121-123 | The intended order is transitive. |
| Sorting.KeyOrderIgnoresCase | src/app/todo/todo.component.ts:121-123 | The intended order does not change when either argument's text is lowercased. |
| Sorting.AsWrittenAgreesWhenLower | src/app/todo/todo.component.ts:113-117 | When the first argument's text is already lower case, the comparator as written gives the intended order. |
| Sorting.AsWrittenNotAntisymmetric | src/app/todo/todo.component.ts:113-117 | For incomplete todos "B" and "a", the comparator answers -1 in both argument orders. |
| Sorting.CorrectedComparator | src/app/todo/todo.component.ts:113-117 | With `a[o]` lowercased as well, the comparator answers with the intended order and is antisymmetric. |
| TodoList.CountOpen | src/app/todo/todo.component.ts:38 | The open count is at most the list's length. |
| TodoList.CountOpenIsMultiplicity | src/app/todo/todo.component.ts:38 | The open count is the number of `false` completion flags. So it depends only on the multiset of flags, and a permutation preserves it. |
| TodoList.CountOpenAppend | src/app/todo/todo.component.ts:45-46 | Appending a todo raises the open count by one exactly when that todo is incomplete. |
| TodoList.CountOpenFlip | src/app/todo/todo.component.ts:71 | Flipping one entry's `completed` moves the open count by one: up if the entry was completed, down if it was open. |
| TodoList.DistinctRemove | src/app/todo/todo.component.ts:89-90 | Removing one position from a duplicate-free list leaves a duplicate-free list without that element. |
| TodoList.JoinPlacesEach | src/app/todo/todo.component.ts:103-104 | In `ms.join(sep)`, each part sits at its offset, every part but the last is followed by `sep`, and the string ends right after the last part. |
| TodoList.FormErrorMessage | src/app/todo/todo.component.ts:100-106 | The message is `''` when the control is neither touched nor dirty, or has no errors. |
| TodoList.FormErrorMessageListsEachKey | src/app/todo/todo.component.ts:102-105 | On a touched or dirty control with errors, each key's message appears in key order, followed by one space unless it is the last; the message ends right after the last one. |
| TodoList.RequiredMessage | src/app/todo/todo.component.ts:14-17 | A touched control whose only error is `required` shows "Todo item is required.". |
| TodoList.TodoComponent.constructor | src/app/todo/todo.component.ts:18-21 | The component starts with an empty list, an open count of 0 and empty messages. |
| TodoList.TodoComponent.CalculateOpenItems | src/app/todo/todo.component.ts:37-39 | Afterwards the open count equals the number of entries with `completed == false`. Only the count changes. |
| TodoList.TodoComponent.Save | src/app/todo/todo.component.ts:41-53 | On success the list grows by exactly the result, which is then a member; the count goes up by 1 whatever the result's `completed` is, while the true open count moves only for an incomplete result; incomplete entries come first; the first entry of the pushed list keeps its record and every other entry, the result included, has its text lowercased and nothing else changed; the list is sorted ignoring case when that first entry's text was lower case. On failure the list, the records and the count are unchanged and `errorMessage` is set. |
| TodoList.TodoComponent.Push | src/app/todo/todo.component.ts:45-46 | The list becomes the old list plus the result, and the count goes up by one. The true open count moves by one only for an incomplete result. |
| TodoList.TodoComponent.GetTodoListAll | src/app/todo/todo.component.ts:55-67 | On success the list is a permutation of the fetched data, the count equals the data's open count, incomplete entries come first, every fetched record but the first has its text lowercased, and the list is sorted ignoring case when the first fetched item is lower case. On failure the list and the count are unchanged and `errorMessage` is set. |
| TodoList.TodoComponent.Toggle | src/app/todo/todo.component.ts:71 | `completed` is negated in place. The open count of the list moves by one exactly when the todo is in the list. |
| TodoList.TodoComponent.CompleteTodo | src/app/todo/todo.component.ts:70-83 | On success `todo`'s `completed` is negated; every entry's record is its old one (with `todo`'s flag flipped), lowercased in its text unless it was first, so no other entry's `completed` changes; the list is a permutation, the count is exact and has moved by one for a listed todo, incomplete entries come first, and the list is sorted ignoring case when the first text was lower case. On failure the todo's record, the list, every entry's record and the count are as before and `errorMessage` is set. |
| TodoList.TodoComponent.Refresh | src/app/todo/todo.component.ts:75-76 | Recounting and sorting: the result is a permutation and the count is exact; the first entry keeps its record and every other entry has only its text lowercased, so every todo keeps its `completed`; incomplete entries come first, and the list is sorted ignoring case when the first text was lower case. |
| TodoList.TodoComponent.DeleteTodo | src/app/todo/todo.component.ts:85-98 | On success the entry at `indexOf(todo)` is removed and the todo is no longer a member, or the last entry goes when the todo is absent; the count is recomputed. On failure the list and the count are kept but `completed` is flipped, so a count that was exact is then wrong whenever the todo is listed. |
| TodoList.TodoComponent.RemoveEntry | src/app/todo/todo.component.ts:89-90 | `splice(indexOf(todo), 1)` removes the todo's entry when it is present. When it is absent, the last entry goes. The list stays duplicate-free. |
| TodoList.TodoComponent.SetMessage | src/app/todo/todo.component.ts:100-106 | The field holds the message for the control, and nothing else changes. |
| TodoList.TodoComponent.Compare | src/app/todo/todo.component.ts:108-119 | Calling the comparator returns its result and leaves `b`'s record as the comparator left it. |
| TodoList.TodoComponent.SortItems | src/app/todo/todo.component.ts:121-123 | The list is a permutation; the first entry's record is kept and every other record has its text lowercased; the open count is preserved; incomplete entries come first; when the first entry's text is lower case the list is sorted in the intended order. |
| Auth.Step | src/app/shared/services/auth.service.ts:29-92 | A successful login or signup stores the response body; a failed identity check, an ok logout and `clearUser` clear the user; every other call keeps it. The identity check answers truthy exactly when it does not clear, logout exactly when it clears, login and signup exactly when they store; `clearUser` yields `undefined`. |
| Auth.StoredUserProvenance | src/app/shared/services/auth.service.ts:49-76 | After any sequence of calls, a stored user is the initial one, or the body of a login or signup that succeeded. |
| Auth.ClearedUntilStored | src/app/shared/services/auth.service.ts:25-92 | After a clearing call, nobody is signed in until a later login or signup stores a user. Clearing calls are a failed identity check, an ok logout and `clearUser`. |
| Auth.ChecksKeepUser | src/app/shared/services/auth.service.ts:30-34 | Successful identity checks never change the stored user. |
| Auth.AuthService.constructor | src/app/shared/services/auth.service.ts:14-19 | The service sees whatever cookie the browser holds. |
| Auth.AuthService.GetUser | src/app/shared/services/auth.service.ts:17-19 | Returns the stored user. |
| Auth.AuthService.SetUser | src/app/shared/services/auth.service.ts:21-23 | The stored user becomes the given one, whatever was there. |
| Auth.AuthService.ClearUser | src/app/shared/services/auth.service.ts:25-27 | Afterwards no user is stored, whatever was there, so it is idempotent; it yields `undefined`, as `Step` says. |
| Auth.AuthService.IsAuthenticated | src/app/shared/services/auth.service.ts:29-47 | True exactly on a present response, and the user is then kept. On a null response or any error, 403 or not, the user is cleared and the answer is false. It agrees with `Step`. |
| Auth.AuthService.Login | src/app/shared/services/auth.service.ts:49-62 | A present response stores its body and is passed on. An error yields false and leaves the stored user unchanged. It agrees with `Step`. |
| Auth.AuthService.Signup | src/app/shared/services/auth.service.ts:64-76 | The same contract as login. |
| Auth.AuthService.Logout | src/app/shared/services/auth.service.ts:78-92 | True exactly on a present response whose `ok` is set, and the user is then cleared. Otherwise the answer is false and the user is untouched. It agrees with `Step`. |

## Left out

- HTTP and RxJS. Each request is a parameter of the operation (`Outcome` for the component, `Reply` for the service).
- `subscribe`, and the `map`/`do`/`catch` plumbing. They are modelled as the branch they select.
- `isAuthenticated` and `logout` return `Observable.of(...)` inside `map`, so the success path emits an observable, not a boolean. The model returns the boolean that is evidently meant.
- `login` and `signup` emit the response itself on success, and `false` on error. The model returns `Passed(response)` or `Flag(false)`.
- `console.log` calls are left out.
- `ngOnInit` is left out: form building, the `debounceTime(1000)` subscription, and the first load. `setMessage` and `getTodoListAll` are modelled as operations in their own right.
- `addForm.reset()` after a save is left out, because the form is not part of the state modelled.
- `Validators` internals are left out. The control is a record of `touched`, `dirty`, and its error keys in order.
- String comparison is by code point, because Dafny's `char` is a Unicode scalar value. JavaScript compares UTF-16 code units, so the two orders differ between characters outside the Basic Multilingual Plane (a surrogate pair) and characters in U+E000..U+FFFF.
- `toLocaleLowerCase` is modelled as ASCII lowercasing, because locale rules are not modelled.
- The lowercased copy of `a[o]` that line 113 stores under property `0` is dropped, because no key reads it.
- `Date` is an integer. The two `new Date()` calls of the `Todo` constructor are two clock readings passed in.
- Cookie serialisation, expiry and the cookie library are left out. The cookie is one optional user.
- The `User` class is not part of this model. A user is an opaque JSON value.
- `JSON` parsing of responses is left out.
- JavaScript's `Array.prototype.sort` algorithm is engine-defined. The model fixes it to a straight insertion sort that passes the element being inserted as the comparator's second argument. Which records get lowercased depends on this choice.
- Overlapping requests are left out. Each operation is a request followed atomically by its response.
- src/app/shared/services/todo.service.ts, the app and routing modules, and src/app/login/login.component.ts are not part of this model.
- `errorMessage` and `formErrorMessage` start as `undefined` in the source. The model starts them as `""`.
- TodoList.TodoComponent.Valid: the model assumes the list never holds the same object twice. This holds for a parsed response and for a freshly parsed save result. Save therefore requires the result not to be in the list, and GetTodoListAll requires the data to be duplicate-free.
- TodoList.TodoComponent.SortItems: the result is proved sorted in the intended order only when the first entry's text is already lower case. Otherwise the comparator as written is not a consistent order (see Findings), and only the partition on `completed` is proved.

## Findings

| source | as written | input that shows it | evidently intended | confidence | as-written member | corrected member |
|---|---|---|---|---|---|---|
| src/app/todo/todo.component.ts:113 | `a[0] = a[o].toLocaleLowerCase()` lowercases into property `0`, so only `b[o]` is lowercased before the comparison | two incomplete todos with items "B" and "a": the comparator answers -1 for (B, a) and for (a, B) | `a[o] = a[o].toLocaleLowerCase()`, comparing both texts without regard to case | not executed | Sorting.AsWrittenNotAntisymmetric | Sorting.CorrectedComparator |
