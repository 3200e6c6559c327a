// internal/router/route.go: the parts of a route that routing depends on.
module Routes {
  import opened Backend

  // A stored route is never updated in place; `backend` is the shared, mutable pool.
  datatype Route = Route(
    id: string,
    host: string,
    pathPrefix: string,
    backend: BackendPool?,
    containerID: string)
}
