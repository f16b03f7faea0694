/** An optional value: Swift's `T?`, as returned by failable initialisers
    such as `Int(_:)` and by lookups that may find nothing. */
module Optional {

  datatype Option<+T> = None | Some(value: T)
}
