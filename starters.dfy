/**
 The list of starters chosen on the booking form. Ticking a starter that is
 not in the list appends it; unticking one that is cuts the list off at its
 first position, dropping it and everything chosen after it (the page calls
 `splice` with a start index and no count).
 */
module Starters {

  /** Position of the first occurrence of `v` in `s`, or -1 when there is none. */
  function IndexOf(s: seq<string>, v: string): (r: int)
    decreases |s|
    ensures r == -1 <==> v !in s
    ensures r != -1 ==> 0 <= r < |s| && s[r] == v && v !in s[..r]
  {
    if s == [] then -1
    else if s[0] == v then 0
    else
      var k := IndexOf(s[1..], v);
      if k == -1 then -1 else k + 1
  }

  /**
   The list after toggling `v`: an absent value is appended at the end; a
   present one leaves exactly the prefix before its first occurrence.
   */
  function Toggled(s: seq<string>, v: string): (r: seq<string>)
    ensures v !in s ==> r == s + [v]
    ensures v in s ==> r < s && s[|r|] == v && v !in r
  {
    var i := IndexOf(s, v);
    if i < 0 then s + [v] else s[..i]
  }

  /** Ticking then unticking a starter that was not chosen restores the list. */
  lemma ToggleTwiceRestores(s: seq<string>, v: string)
    requires v !in s
    ensures Toggled(Toggled(s, v), v) == s
  {
    var t := Toggled(s, v);
    assert t[|s|] == v;
    assert t[..|s|] == s;
  }

  /**
   Unticking the first of two chosen starters empties the list, so ticking it
   again does not give back the second one.
   */
  lemma UntickTruncates()
    ensures Toggled(["soup", "bread"], "soup") == []
    ensures Toggled(Toggled(["soup", "bread"], "soup"), "soup") == ["soup"]
  {
    assert ["soup", "bread"][0] == "soup";
  }
}
