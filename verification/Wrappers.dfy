/** Result types shared by all modules: a Go (value, ok) pair and a Go (value, error) pair. */
module Wrappers {

  datatype Option<+T> = None | Some(value: T) {
    function UnwrapOr(default: T): T {
      match this
      case None => default
      case Some(v) => v
    }
  }

  /** The largest Go int. */
  const MAX_INT := 0x7fff_ffff_ffff_ffff

  datatype Result<+T> = Ok(value: T) | Err(message: string)

  datatype Outcome = Pass | Fail(message: string)

  /** Two maps of one size are equal if one has every key of the other with the same value. */
  lemma SameSizeSame<K, V>(a: map<K, V>, b: map<K, V>)
    requires |a| == |b| && forall k :: k in a ==> k in b && a[k] == b[k]
    ensures a == b
  {
    var extra := b.Keys - a.Keys;
    assert b.Keys == a.Keys + extra && a.Keys !! extra;
    assert |b.Keys| == |a.Keys| + |extra|;
    assert extra == {};
  }
}
