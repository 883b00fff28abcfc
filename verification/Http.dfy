/** HTTP methods and the identifiers that stand for handlers and middlewares. */
module Http {
  datatype Method =
    | GET | POST | PUT | DELETE | PATCH | HEAD | OPTIONS | TRACE | CONNECT
    | Extension(name: string)

  type Handler = nat
  type Middleware = nat
}
