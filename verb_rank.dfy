/** The fixed weight of an HTTP verb when endpoints of one path are ordered. */
module VerbRank {
  import opened Wrappers
  import opened Text

  /**
   * `HttpVerbRank`: GET, POST, PUT, UPDATE rank 0 to 3, DELETE ranks 5,
   * after every other verb (4), including a null or empty one.
   */
  function HttpVerbRank(verb: Option<string>): (r: nat)
    ensures r <= 5
    ensures verb.None? || verb == Some("") ==> r == 4
  {
    if verb.None? || verb.value == "" then 4
    else
      var v := ToLower(verb.value);
      if v == "get" then 0
      else if v == "post" then 1
      else if v == "put" then 2
      else if v == "update" then 3
      else if v == "delete" then 5
      else 4
  }

  /** The rank of each known verb, case-insensitively, and 4 for everything else. */
  lemma HttpVerbRankTable(s: string)
    ensures HttpVerbRank(Some(s)) == 0 <==> ToLower(s) == "get"
    ensures HttpVerbRank(Some(s)) == 1 <==> ToLower(s) == "post"
    ensures HttpVerbRank(Some(s)) == 2 <==> ToLower(s) == "put"
    ensures HttpVerbRank(Some(s)) == 3 <==> ToLower(s) == "update"
    ensures HttpVerbRank(Some(s)) == 5 <==> ToLower(s) == "delete"
    ensures HttpVerbRank(Some(s)) == 4 <==> ToLower(s) !in {"get", "post", "put", "update", "delete"}
  {
    if s == "" {
      assert ToLower(s) == "";
    }
  }

  /** Matching ignores case: a verb ranks as its lower- and upper-case forms do. */
  lemma {:induction false} HttpVerbRankIgnoresCase(s: string)
    ensures HttpVerbRank(Some(ToUpper(s))) == HttpVerbRank(Some(s))
    ensures HttpVerbRank(Some(ToLower(s))) == HttpVerbRank(Some(s))
  {
    LowerIgnoresCase(s);
  }

  /** DELETE sorts after every verb, known or not; unknown verbs sort after UPDATE. */
  lemma HttpVerbRankDeleteLast(verb: Option<string>)
    ensures HttpVerbRank(verb) <= HttpVerbRank(Some("DELETE"))
    ensures HttpVerbRank(verb) == 4 ==> HttpVerbRank(Some("UPDATE")) < HttpVerbRank(verb) < HttpVerbRank(Some("delete"))
  {
    DeleteRank();
    UpdateRank();
    assert ToLower("delete") == "delete";
  }

  lemma DeleteRank()
    ensures HttpVerbRank(Some("DELETE")) == 5
  {
    assert ToLower("DELETE") == "delete";
  }

  lemma UpdateRank()
    ensures HttpVerbRank(Some("UPDATE")) == 3
  {
    assert ToLower("UPDATE") == "update";
  }
}
