/** What several modules share. */
module Common {

  datatype Option<+T> = None | Some(value: T)

  type Byte = b: nat | b < 256

  function Flatten<T>(lists: seq<seq<T>>): seq<T> {
    if lists == [] then [] else lists[0] + Flatten(lists[1..])
  }
}
