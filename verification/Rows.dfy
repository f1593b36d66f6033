/**
 What the tables of modules and of providers have in common: ids of new rows, the
 greatest of some version rows, and how extracting a version ends.
 */
module Rows {
  import opened VersionText

  /** How extracting a version ends: done, with a registry error, or with any other exception. */
  datatype Extraction = Extracted | RegistryFailure | OtherFailure

  lemma UnusedIdExists(used: set<nat>)
    ensures exists n: nat :: n !in used
  {
    var n := Above(used);
    assert n !in used;
  }

  ghost function Above(used: set<nat>): (n: nat)
    ensures forall m :: m in used ==> m < n
  {
    if used == {} then 0
    else
      var m :| m in used;
      var rest := Above(used - {m});
      assert used == (used - {m}) + {m};
      if m < rest then rest else m + 1
  }

  /** Any non-empty set of rows has one whose version none exceeds. */
  lemma {:induction false} MaximumExists(numbers: map<nat, Release>, rows: set<nat>) returns (m: nat)
    requires rows != {} && rows <= numbers.Keys
    ensures m in rows && forall v :: v in rows ==> AtMost(numbers[v], numbers[m])
    decreases |rows|
  {
    var any :| any in rows;
    m := any;
    if rows != {any} {
      var rest := rows - {any};
      assert rows == rest + {any};
      var n := MaximumExists(numbers, rest);
      if AtMost(numbers[any], numbers[n]) {
        m := n;
      }
    }
  }

  /** One of the rows with the greatest version. */
  method Greatest(numbers: map<nat, Release>, rows: set<nat>) returns (m: nat)
    requires rows != {} && rows <= numbers.Keys
    ensures m in rows && forall v :: v in rows ==> AtMost(numbers[v], numbers[m])
  {
    ghost var any := MaximumExists(numbers, rows);
    m :| m in rows && forall v :: v in rows ==> AtMost(numbers[v], numbers[m]);
  }
}
