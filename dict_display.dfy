/**
  The display of a dictionary, as an f-string shows a `dict`: its items in
  insertion order, each as `key: value`, separated by `, ` and enclosed in
  braces. How a single key or value object is shown (its `repr`) is not
  modelled: each entry carries the display text of its key and its value.
 */
module DictDisplay {

  /** One item of a dictionary, as the display texts of its key and value. */
  datatype Entry = Entry(key: string, value: string)

  /** A dictionary, as its items in insertion order. */
  type Dict = seq<Entry>

  function ItemText(e: Entry): string {
    e.key + ": " + e.value
  }

  function ItemsText(d: Dict): string {
    if |d| == 0 then ""
    else if |d| == 1 then ItemText(d[0])
    else ItemText(d[0]) + ", " + ItemsText(d[1..])
  }

  /** The text of the dictionary `d`, enclosed in braces. */
  function RenderContext(d: Dict): (r: string)
    ensures |r| >= 2 && r[0] == '{' && r[|r| - 1] == '}'
    ensures d == [] <==> r == "{}"
  {
    "{" + ItemsText(d) + "}"
  }

  /** `x` occurs in `s` as a contiguous piece starting at index `j`. */
  predicate OccursAt(s: string, x: string, j: nat) {
    j + |x| <= |s| && s[j..j + |x|] == x
  }

  /** `x` occurs in `s` as a contiguous piece. */
  ghost predicate Contains(s: string, x: string) {
    exists j: nat :: OccursAt(s, x, j)
  }

  /** Where the text of item `i` sits inside the items' text. */
  lemma {:induction false} ItemOffset(d: Dict, i: nat) returns (j: nat)
    requires i < |d|
    ensures j + |ItemText(d[i])| <= |ItemsText(d)|
    ensures ItemsText(d)[j..j + |ItemText(d[i])|] == ItemText(d[i])
  {
    if i == 0 {
      j := 0;
      if |d| > 1 {
        assert ItemsText(d)[..|ItemText(d[0])|] == ItemText(d[0]);
      }
    } else {
      var rest := ItemOffset(d[1..], i - 1);
      assert d[1..][i - 1] == d[i];
      var head := ItemText(d[0]) + ", ";
      j := |head| + rest;
      assert ItemsText(d) == head + ItemsText(d[1..]);
      assert ItemsText(d)[j..j + |ItemText(d[i])|] == ItemsText(d[1..])[rest..rest + |ItemText(d[i])|];
    }
  }

  /** Every key and its value are shown, side by side, in the rendered dictionary. */
  lemma RenderContextShowsEntry(d: Dict, i: nat)
    requires i < |d|
    ensures Contains(RenderContext(d), d[i].key + ": " + d[i].value)
  {
    var j := ItemOffset(d, i);
    var x := ItemText(d[i]);
    var r := RenderContext(d);
    assert r[j + 1..j + 1 + |x|] == ItemsText(d)[j..j + |x|];
    assert OccursAt(r, x, j + 1);
  }
}
