/** The vocabulary shared by every module: need keys, opaque values, stores,
    the framework's error cases and the Option/Result wrappers. */
module Values {

  /** A need or store key. The framework's keys are Ruby symbols, identified here by their name. */
  type Key = string

  /** Whatever a need, a default or a store entry holds. The framework never inspects it;
      Ruby's `nil` is one of these values, so a `nil` default or a `nil` entry still counts as present. */
  type Value

  /** The key/value table owned by a root component and shared by its whole tree. */
  type Store = map<Key, Value>

  datatype Option<+T> = None | Some(value: T)

  /** The exceptions the component core raises. */
  datatype Error =
    | Unused(keys: set<Key>)   // construction was passed keys its class never declared
    | Missing(key: Key)        // a declared need has no store entry, no passed value and no default
    | NotStored(key: Key)      // `store` on a key the calling class does not declare `store: true`
    | NotComponent             // `h` was given a class that is not a Component
    | NotHash                  // `h` was given a component class with props that are not a Hash

  datatype Result<+T> = Ok(value: T) | Err(error: Error)
}
