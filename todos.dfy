/** The to-do record exchanged between the server and the client: `{id, title, completed}`. */
module Todos {

  datatype Todo = Todo(id: int, title: string, completed: bool)
}
