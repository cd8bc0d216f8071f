/** Shared helpers. */
module Common {
  datatype Option<T> = None | Some(value: T)

  /** Where o is first found in s. */
  function IndexOf(s: seq<nat>, o: nat): (i: nat)
    requires o in s
    ensures i < |s| && s[i] == o
  {
    if s[0] == o then 0 else 1 + IndexOf(s[1..], o)
  }
}
