/** The `Todo` record of src/app/shared/classes/todo.ts and its constructor. */
module Todos {
  import opened Wrappers

  /** A `Date` value, as milliseconds since the epoch. */
  type Time = int

  datatype Todo = Todo(id: string, item: string, completed: bool, createdAt: Time, updatedAt: Time)

  /** `new Todo(item, id?, completed?, createdAt?, updatedAt?)`. An absent or
      falsy argument gets its default; `createdNow` and `updatedNow` are what
      the two `new Date()` calls read from the clock. */
  function NewTodo(item: string, id: Option<string>, completed: Option<bool>,
                   createdAt: Option<Time>, updatedAt: Option<Time>,
                   createdNow: Time, updatedNow: Time): (t: Todo)
    ensures t.id == "" <==> (id == None || id == Some(""))
    ensures id.Some? ==> t.id == id.value
    ensures t.item == item
    ensures t.completed <==> completed == Some(true)
    ensures t.createdAt == (if createdAt.Some? then createdAt.value else createdNow)
    ensures t.updatedAt == (if updatedAt.Some? then updatedAt.value else updatedNow)
  {
    Todo(
      id := if id.Some? && id.value != "" then id.value else "",
      item := item,
      completed := if completed.Some? && completed.value then completed.value else false,
      createdAt := match createdAt case Some(d) => d case None => createdNow,
      updatedAt := match updatedAt case Some(d) => d case None => updatedNow)
  }

  /** A todo made from its text alone has not been stored yet: no id, not completed. */
  lemma FreshTodoDefaults(item: string, createdNow: Time, updatedNow: Time)
    ensures NewTodo(item, None, None, None, None, createdNow, updatedNow)
         == Todo("", item, false, createdNow, updatedNow)
  {
  }
}
