/**
 The output records of the two hierarchical readers: the group levels
 DATA_GROUP_L1, DATA_GROUP_L2, ... followed by VALUE.
 */
module Records {
  import opened Collections
  import opened Text

  /** One output row: the group stack (DATA_GROUP_L1, L2, ...) and VALUE. */
  datatype Record = Record(groups: seq<string>, value: string)

  /** A record as (column, value) pairs in column order. */
  type Fields = seq<(string, string)>

  /** The value under `column`: the first pair with that name. */
  function Get(fields: Fields, column: string): (r: Option<string>)
    ensures r.None? <==> forall i :: 0 <= i < |fields| ==> fields[i].0 != column
    ensures r.Some? ==> exists i :: 0 <= i < |fields| && fields[i] == (column, r.value)
  {
    if |fields| == 0 then None
    else if fields[0].0 == column then Some(fields[0].1)
    else
      var r := Get(fields[1..], column);
      assert forall i :: 1 <= i < |fields| ==> fields[i] == fields[1..][i - 1];
      r
  }

  function ColumnName(level: nat): string
  {
    "DATA_GROUP_L" + NatToString(level + 1)
  }

  /** The columns of a record: DATA_GROUP_L1.. from the stack, then VALUE. */
  function RecordFields(r: Record): (f: Fields)
    ensures |f| == |r.groups| + 1
    ensures forall i :: 0 <= i < |r.groups| ==> f[i] == (ColumnName(i), r.groups[i])
    ensures f[|r.groups|] == ("VALUE", r.value)
  {
    seq(|r.groups|, i requires 0 <= i < |r.groups| => (ColumnName(i), r.groups[i])) + [("VALUE", r.value)]
  }

  /** Reading VALUE back from a record's columns gives the record's value. */
  lemma RecordFieldsValue(r: Record)
    ensures Get(RecordFields(r), "VALUE") == Some(r.value)
  {
    var f := RecordFields(r);
    forall i | 0 <= i < |r.groups| ensures f[i].0 != "VALUE" {
      assert f[i].0[0] == 'D';
    }
    GetFirst(f, "VALUE", |r.groups|);
  }

  /** Reading a group column back from a record's columns gives that level of the stack. */
  lemma RecordFieldsGroup(r: Record, i: int)
    requires 0 <= i < |r.groups|
    ensures Get(RecordFields(r), ColumnName(i)) == Some(r.groups[i])
  {
    var f := RecordFields(r);
    forall j | 0 <= j < i ensures f[j].0 != ColumnName(i) {
      ColumnNameInjective(j, i);
    }
    GetFirst(f, ColumnName(i), i);
  }

  /** Different levels have different column names. */
  lemma ColumnNameInjective(a: nat, b: nat)
    requires a != b
    ensures ColumnName(a) != ColumnName(b)
  {
    var p := "DATA_GROUP_L";
    assert ColumnName(a)[|p|..] == NatToString(a + 1);
    assert ColumnName(b)[|p|..] == NatToString(b + 1);
    DecimalNatToString(a + 1);
    DecimalNatToString(b + 1);
  }

  lemma {:induction false} GetFirst(fields: Fields, column: string, k: int)
    requires 0 <= k < |fields| && fields[k].0 == column
    requires forall i :: 0 <= i < k ==> fields[i].0 != column
    ensures Get(fields, column) == Some(fields[k].1)
  {
    if k > 0 {
      GetFirst(fields[1..], column, k - 1);
    }
  }
}
