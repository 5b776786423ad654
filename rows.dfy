/** Rows as the scripts hand them to the database client: a tuple of
    column values matched to a list of column names by position. */
module Rows {
  import opened Common
  import opened Dates

  /** A column value: NULL, a string, a date, a timestamp (an abstract
      instant from the clock), or an array of strings. */
  datatype Value = Null | Str(s: string) | Day(d: Date) | Time(t: int) | Strs(ss: seq<string>)

  function OptStr(o: Option<string>): Value {
    match o
    case None => Null
    case Some(s) => Str(s)
  }

  function OptDay(o: Option<Date>): Value {
    match o
    case None => Null
    case Some(d) => Day(d)
  }

  /** The position of the first column with the name, |names| if none. */
  function ColumnIndex(names: seq<string>, name: string): (i: nat)
    ensures i <= |names|
    ensures forall j :: 0 <= j < i ==> names[j] != name
    ensures i < |names| ==> names[i] == name
  {
    if names == [] then 0
    else if names[0] == name then 0
    else 1 + ColumnIndex(names[1..], name)
  }

  /** The value a row inserted under `names` stores in column `name`. */
  function Lookup(names: seq<string>, row: seq<Value>, name: string): Option<Value> {
    var i := ColumnIndex(names, name);
    if i < |names| && i < |row| then Some(row[i]) else None
  }

  /** With column names that are pairwise distinct, the value stored in
      column names[k] is row[k]. */
  lemma LookupAt(names: seq<string>, row: seq<Value>, k: nat)
    requires |names| == |row| && k < |names|
    requires forall i, j :: 0 <= i < j < |names| ==> names[i] != names[j]
    ensures Lookup(names, row, names[k]) == Some(row[k])
  {
    var i := ColumnIndex(names, names[k]);
    assert i == k by {
      assert i < |names|;
      assert i <= k;
    }
  }

  /** Two column lists that agree on a prefix place every name of that
      prefix at the same position. */
  lemma ColumnIndexOfSharedPrefix(a: seq<string>, b: seq<string>, n: nat, name: string)
    requires n <= |a| && n <= |b| && a[..n] == b[..n]
    requires name in a[..n]
    ensures ColumnIndex(a, name) == ColumnIndex(b, name) < n
  {
    var i :| 0 <= i < n && a[i] == name;
    assert a[i] == a[..n][i];
    assert b[i] == b[..n][i];
    var ia, ib := ColumnIndex(a, name), ColumnIndex(b, name);
    assert ia <= i && ib <= i;
    assert a[ia] == a[..n][ia] && b[ib] == b[..n][ib];
  }
}
