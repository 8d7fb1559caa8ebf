/** Option and Result types shared by every module of the model.
    Go's `(T, error)` pairs become `Result<T>`; a Go `error` is modelled by its
    message text, since that text is what callers inspect (see BadFileDetector). */
module Results {

  /** A value that may be absent: a Go nil pointer, a missing map entry, `sql.ErrNoRows`. */
  datatype Option<+T> = None | Some(value: T) {
    function GetOr(default: T): T {
      if Some? then value else default
    }
  }

  /** Either a value or an error message. */
  datatype Result<+T> = Ok(value: T) | Err(error: string)

  /** A map lookup that reports a missing key as `None`: the `v, ok := m[k]`
      idiom behind every Get-by-id of the code. */
  function Lookup<K, V>(m: map<K, V>, k: K): (r: Option<V>)
    ensures r.Some? <==> k in m
    ensures r.Some? ==> r.value == m[k]
  {
    if k in m then Some(m[k]) else None
  }
}
