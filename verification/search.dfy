/** Look-ups into the list of root records (ramda's `findIndex`). */
module Search {
  import opened Posts

  /** Index of the first element satisfying `p`, or -1 when there is none. */
  function FindIndex<T>(s: seq<T>, p: T -> bool): (r: int)
    ensures -1 <= r < |s|
    ensures r == -1 <==> forall i :: 0 <= i < |s| ==> !p(s[i])
    ensures 0 <= r ==> p(s[r]) && forall i :: 0 <= i < r ==> !p(s[i])
  {
    if |s| == 0 then -1
    else if p(s[0]) then 0
    else
      var k := FindIndex(s[1..], p);
      assert forall i :: 1 <= i < |s| ==> s[i] == s[1..][i - 1];
      if k == -1 then -1 else k + 1
  }

  /** `findPostIndexWithId`: the first root record with the given id. */
  function FindPostIndexWithId(roots: seq<RootRecord>, id: string): (r: int)
    ensures -1 <= r < |roots|
    ensures r == -1 <==> !HasId(roots, id)
    ensures 0 <= r ==> roots[r].id == id && forall i :: 0 <= i < r ==> roots[i].id != id
  {
    FindIndex(roots, (rec: RootRecord) => rec.id == id)
  }

  /** `findPostIndexWithTheme`: the first root record whose canonical key is `theme`. */
  function FindPostIndexWithTheme(roots: seq<RootRecord>, theme: string): (r: int)
    ensures -1 <= r < |roots|
    ensures r == -1 <==> forall i :: 0 <= i < |roots| ==> roots[i].theme != theme
    ensures 0 <= r ==> roots[r].theme == theme && forall i :: 0 <= i < r ==> roots[i].theme != theme
  {
    FindIndex(roots, (rec: RootRecord) => rec.theme == theme)
  }
}
