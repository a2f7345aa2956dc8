/**
 * Small shared vocabulary: Python's optional values and truthiness, the
 * store's failure kinds, and SQL's `LIKE '%pattern%'` substring test.
 */
module Base {

  /** A Python value that may be `None`. */
  datatype Option<T> = None | Some(value: T)

  /** Why a store write was refused by the database, or why Python raised. */
  datatype Fault =
    | CheckViolation     // a CHECK constraint on a status column failed
    | NotNullViolation   // a NOT NULL column received None
    | UniqueViolation    // a UNIQUE column received a duplicate value
    | RowNotFound        // the repository raised ValueError for a missing id
    | TypeMismatch       // Python arithmetic or comparison involving None
    | NoneAttribute      // Python attribute access on None
    | Overflow           // OverflowError: a timedelta or datetime out of range

  /** The result of a store write that may raise. */
  datatype Result<T> = Ok(value: T) | Err(fault: Fault)

  /**
   * `get_by_id` of the vehicle, rental and maintenance repositories: the
   * row stored under `id`, or None when there is none.
   */
  function RowById<T>(rows: map<int, T>, id: int): (r: Option<T>)
    ensures r.None? <==> id !in rows
    ensures r.Some? ==> id in rows && r.value == rows[id]
  {
    if id in rows then Some(rows[id]) else None
  }

  /** A DELETE by id: exactly that row disappears, the others are untouched. */
  function DeleteRow<T>(rows: map<int, T>, id: int): (r: map<int, T>)
    ensures id !in r
    ensures forall k :: k != id ==> (k in r <==> k in rows)
    ensures forall k :: k in r ==> r[k] == rows[k]
  {
    rows - {id}
  }

  /** Python truthiness of an optional integer: None and 0 are falsy. */
  predicate TruthyInt(x: Option<int>) {
    x.Some? && x.value != 0
  }

  /** Python's `a or b` on optional integers. */
  function OrInt(a: Option<int>, b: Option<int>): (r: Option<int>)
    ensures TruthyInt(a) ==> r == a
    ensures !TruthyInt(a) ==> r == b
  {
    if TruthyInt(a) then a else b
  }

  /** Python's `a or b` on strings: the empty string is falsy. */
  function OrStr(a: string, b: string): (r: string)
    ensures a != "" ==> r == a
    ensures a == "" ==> r == b
  {
    if a != "" then a else b
  }

  /** `p` occurs in `s` starting at index `i`. */
  ghost predicate OccursAt(s: string, p: string, i: int) {
    0 <= i && i + |p| <= |s| && s[i..i + |p|] == p
  }

  /**
   * SQL `s LIKE '%p%'` read as a literal substring test: true iff `p`
   * occurs somewhere in `s`.
   */
  function Contains(s: string, p: string): (r: bool)
    ensures r <==> exists i :: OccursAt(s, p, i)
    decreases |s|
  {
    if |p| <= |s| && s[..|p|] == p then
      assert OccursAt(s, p, 0);
      true
    else if |s| == 0 then
      assert forall i :: !OccursAt(s, p, i);
      false
    else
      var r := Contains(s[1..], p);
      ShiftOccurrence(s, p);
      r
  }

  /** An occurrence in `s[1..]` is an occurrence in `s` one position later. */
  lemma ShiftOccurrence(s: string, p: string)
    requires |s| > 0
    requires !(|p| <= |s| && s[..|p|] == p)
    ensures (exists i :: OccursAt(s[1..], p, i)) <==> (exists i :: OccursAt(s, p, i))
  {
    if i :| OccursAt(s[1..], p, i) {
      assert s[1..][i..i + |p|] == s[i + 1..i + 1 + |p|];
      assert OccursAt(s, p, i + 1);
    }
    if i :| OccursAt(s, p, i) {
      assert i != 0;
      assert s[1..][i - 1..i - 1 + |p|] == s[i..i + |p|];
      assert OccursAt(s[1..], p, i - 1);
    }
  }

  /** The empty filter matches every string, as `LIKE '%%'` does. */
  lemma {:induction false} EmptyFilterMatchesAll(s: string)
    ensures Contains(s, "")
  {
    assert OccursAt(s, "", 0);
  }
}
