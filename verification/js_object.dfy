/** A JavaScript object's own string-keyed members, as a list of
    name/value pairs in property order. */
module JsObject {
  /** The member names, in property order. */
  function MemberNames<V>(members: seq<(string, V)>): (r: seq<string>)
    ensures |r| == |members|
    ensures forall i :: 0 <= i < |members| ==> r[i] == members[i].0
  {
    seq(|members|, i requires 0 <= i < |members| => members[i].0)
  }

  /** The names of a member list with one more member in front. */
  lemma MemberNamesCons<V>(x: (string, V), members: seq<(string, V)>)
    ensures MemberNames([x] + members) == [x.0] + MemberNames(members)
  {
    var l := MemberNames([x] + members);
    var r := [x.0] + MemberNames(members);
    assert |l| == |r|;
    forall i | 0 <= i < |l| ensures l[i] == r[i] {
      if i > 0 {
        assert ([x] + members)[i] == members[i - 1];
      }
    }
  }
}
