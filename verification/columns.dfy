/** Column resolution for the monthly file (app.py:64-65): the first column,
    in declaration order, whose lowercased name contains a hint; the search
    raises `StopIteration` when no column does. */
module Columns {
  import opened Wrappers
  import opened Strings
  import opened Table

  predicate Matches(column: string, hint: string) {
    Contains(Lower(column), hint)
  }

  /** For a hint without ASCII capitals, `hint in column.lower()` holds
      exactly when the hint occurs in the column name ignoring ASCII letter
      case. */
  lemma MatchesIgnoringCase(column: string, hint: string)
    requires forall k :: 0 <= k < |hint| ==> !IsAsciiUpper(hint[k])
    ensures Matches(column, hint) <==> exists i :: OccursIgnoringCaseAt(column, hint, i)
  {
    if Matches(column, hint) {
      var i :| 0 <= i <= |Lower(column)| && OccursAt(Lower(column), hint, i);
      LowerOccursAt(column, hint, i);
    }
    if exists i :: OccursIgnoringCaseAt(column, hint, i) {
      var i :| OccursIgnoringCaseAt(column, hint, i);
      LowerOccursAt(column, hint, i);
    }
  }

  /** Position of the first column matching `hint`, or `|columns|`. */
  function FirstMatch(columns: seq<string>, hint: string): (k: nat)
    ensures k <= |columns|
    ensures k < |columns| ==> Matches(columns[k], hint)
    ensures forall j :: 0 <= j < k ==> !Matches(columns[j], hint)
  {
    if |columns| == 0 then 0
    else if Matches(columns[0], hint) then 0
    else 1 + FirstMatch(columns[1..], hint)
  }

  /** `next(c for c in columns if hint in c.lower())`. */
  function Resolve(columns: seq<string>, hint: string): (r: Result<string, Error>)
    ensures r.Ok? ==> exists i :: 0 <= i < |columns| && columns[i] == r.value
                        && Matches(columns[i], hint)
                        && forall j :: 0 <= j < i ==> !Matches(columns[j], hint)
    ensures r.Err? <==> forall c :: c in columns ==> !Matches(c, hint)
    ensures r.Err? ==> r.error == ColumnNotFound(hint)
  {
    var k := FirstMatch(columns, hint);
    if k < |columns| then Ok(columns[k]) else Err(ColumnNotFound(hint))
  }

  /** Ties go to declaration order: whenever column `i` matches, the
      resolved column is column `i` or one declared before it. */
  lemma ResolvePicksEarliest(columns: seq<string>, hint: string, i: nat)
    requires i < |columns| && Matches(columns[i], hint)
    ensures Resolve(columns, hint).Ok?
    ensures exists k :: 0 <= k <= i && columns[k] == Resolve(columns, hint).value
  {
    var k := FirstMatch(columns, hint);
    assert k <= i;
    assert columns[k] == Resolve(columns, hint).value;
  }
}
