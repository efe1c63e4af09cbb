/** Types shared by every module of the model. */
module Common {
  /** Identifiers.  The system uses random UUIDs; only equality and a total order matter here. */
  type Uuid = nat

  datatype Option<+T> = None | Some(value: T)

  datatype Result<+T, +E> = Ok(value: T) | Err(error: E)

  function Max(a: int, b: int): int {
    if a < b then b else a
  }

  /** `s` without the elements of `drop`, as `retain` leaves it. */
  function Without(s: seq<Uuid>, drop: seq<Uuid>): (r: seq<Uuid>)
    ensures forall x :: x in r <==> x in s && x !in drop
  {
    if s == [] then [] else (if s[0] in drop then [] else [s[0]]) + Without(s[1..], drop)
  }

  /** The largest value of a signed 32-bit integer, the type of every binding priority. */
  const I32_MAX: int := 0x7FFF_FFFF

  /** Dropping keeps the order of what it leaves. */
  lemma WithoutCons(x: Uuid, s: seq<Uuid>, drop: seq<Uuid>)
    ensures Without([x] + s, drop) == if x in drop then Without(s, drop) else [x] + Without(s, drop)
  {
    assert ([x] + s)[1..] == s;
  }
}
