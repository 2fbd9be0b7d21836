/** Sort orders of query results: a column and a direction, and the reversal
    of a list of sort orders. */
module DatabaseSort {
  import opened Wrappers

  /** The observable content of a sort order. `column` is absent until set. */
  datatype SortKey = SortKey(column: Option<string>, ascending: bool)

  /** `toString`: the column (or "null") followed by ASC or DESC. */
  function KeyText(k: SortKey): (s: string)
    ensures var col := if k.column.Some? then k.column.value else "null";
      |s| == |col| + (if k.ascending then 4 else 5) &&
      s[..|col|] == col && s[|col|] == ' ' &&
      (s[|col| + 1..] == "ASC" <==> k.ascending) &&
      (s[|col| + 1..] == "DESC" <==> !k.ascending)
  {
    var col := if k.column.Some? then k.column.value else "null";
    col + " " + (if k.ascending then "ASC" else "DESC")
  }

  /** The keys of a reversed sort list: same columns, opposite directions. */
  function ReverseKeys(ks: seq<SortKey>): (r: seq<SortKey>)
    ensures |r| == |ks|
    ensures forall i :: 0 <= i < |ks| ==>
              r[i].column == ks[i].column && r[i].ascending == !ks[i].ascending
  {
    seq(|ks|, i requires 0 <= i < |ks| => SortKey(ks[i].column, !ks[i].ascending))
  }

  class Sort {
    var column: Option<string>
    var ascending: bool

    /** The default constructor: no column, ascending. */
    constructor Default()
      ensures column == None && ascending
    {
      column := None;
      ascending := true;
    }

    /** The column may be null (`None`). */
    constructor (column: Option<string>, ascending: bool)
      ensures this.column == column && this.ascending == ascending
    {
      this.column := column;
      this.ascending := ascending;
    }

    function Key(): SortKey
      reads this
    {
      SortKey(column, ascending)
    }

    method SetColumn(column: Option<string>)
      modifies this
      ensures this.column == column && ascending == old(ascending)
    {
      this.column := column;
    }

    method SetAscending(ascending: bool)
      modifies this
      ensures this.ascending == ascending && column == old(column)
    {
      this.ascending := ascending;
    }
  }

  /** The keys of an array of sort orders. */
  function Keys(a: array<Sort>): (ks: seq<SortKey>)
    reads a, set i | 0 <= i < a.Length :: a[i]
    ensures |ks| == a.Length && forall i :: 0 <= i < a.Length ==> ks[i] == a[i].Key()
  {
    seq(a.Length, i reads a, set j | 0 <= j < a.Length :: a[j] requires 0 <= i < a.Length => a[i].Key())
  }

  /** `reverse`: a fresh array of fresh sort orders with the directions
      flipped; the input array and its elements are left as they were. */
  method Reverse(sort: array<Sort>) returns (result: array<Sort>)
    ensures fresh(result)
    ensures forall i :: 0 <= i < result.Length ==> fresh(result[i])
    ensures Keys(result) == ReverseKeys(Keys(sort))
  {
    var placeholder := new Sort.Default();
    result := new Sort[sort.Length](_ => placeholder);
    var i := 0;
    while i < result.Length
      invariant 0 <= i <= result.Length
      invariant forall j :: 0 <= j < i ==> fresh(result[j])
      invariant forall j :: 0 <= j < i ==> result[j].Key() == SortKey(sort[j].column, !sort[j].ascending)
    {
      var orig := sort[i];
      result[i] := new Sort.Default();
      result[i].column := orig.column;
      result[i].ascending := !orig.ascending;
      i := i + 1;
    }
  }

  /** Reversing twice gives back the original keys. */
  lemma ReverseKeysInvolutive(ks: seq<SortKey>)
    ensures ReverseKeys(ReverseKeys(ks)) == ks
  {
    var r := ReverseKeys(ReverseKeys(ks));
    assert forall i :: 0 <= i < |ks| ==> r[i] == ks[i];
  }
}
