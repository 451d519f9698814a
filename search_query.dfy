/** The search parameters as the client turns them into a cache key
    (`search_query_identifier`) and into the form's keyword-mode code
    (`schlagwortOptionen`). */
module SearchQuery {
  import opened Outcomes
  import opened Text

  /** One attribute of the parsed command line, in definition order: its name
      and its value, `None` when the option was not given and has no default. */
  datatype Param = Param(key: string, value: Option<string>)

  /** `str(value)` for an option value. */
  function ValueText(v: Option<string>): string {
    match v
    case None => "None"
    case Some(s) => s
  }

  /** "key:value" for one parameter. */
  function Field(p: Param): string {
    p.key + ":" + ValueText(p.value)
  }

  function Fields(ps: seq<Param>): seq<string> {
    seq(|ps|, k requires 0 <= k < |ps| => Field(ps[k]))
  }

  /** The cache file name of a query: the "key:value" fields joined by "_",
      in lower case, followed by ".html". */
  function QueryKey(ps: seq<Param>): string {
    Lower(Join(Fields(ps), "_")) + ".html"
  }

  /** `s[:-1]`: everything but the last character; the empty string stays empty. */
  function DropLast(s: string): (r: string)
    ensures |s| > 0 ==> s == r + [s[|s| - 1]]
    ensures |s| == 0 ==> r == []
  {
    if |s| == 0 then s else s[..|s| - 1]
  }

  /** `search_query_identifier`: appends "key:value_" for each parameter, drops
      the last character, lowers the case and appends ".html". */
  method SearchQueryIdentifier(ps: seq<Param>) returns (id: string)
    ensures id == QueryKey(ps)
  {
    var acc := "";
    var k := 0;
    while k < |ps|
      invariant 0 <= k <= |ps|
      invariant acc == if k == 0 then "" else Join(Fields(ps)[..k], "_") + "_"
    {
      acc := acc + ps[k].key + ":" + ValueText(ps[k].value) + "_";
      ghost var parts := Fields(ps)[..k + 1];
      assert parts[..k] == Fields(ps)[..k];
      assert parts[k] == Field(ps[k]);
      k := k + 1;
    }
    assert Fields(ps)[..k] == Fields(ps);
    acc := DropLast(acc);
    id := Lower(acc) + ".html";
  }

  /** Every cache key ends in ".html"; no parameters give exactly ".html". */
  lemma QueryKeyShape(ps: seq<Param>)
    ensures |QueryKey(ps)| >= 5 && QueryKey(ps)[|QueryKey(ps)| - 5..] == ".html"
    ensures ps == [] ==> QueryKey(ps) == ".html"
  {
  }

  /** Queries whose names and values agree up to letter case share a cache key. */
  lemma QueryKeyIgnoresCase(ps: seq<Param>, qs: seq<Param>)
    requires |ps| == |qs|
    requires forall k :: 0 <= k < |ps| ==>
      Lower(ps[k].key) == Lower(qs[k].key) && Lower(ValueText(ps[k].value)) == Lower(ValueText(qs[k].value))
    ensures QueryKey(ps) == QueryKey(qs)
  {
    forall k | 0 <= k < |ps|
      ensures Lower(Fields(ps)[k]) == Lower(Fields(qs)[k])
    {
      LowerAppend(ps[k].key + ":", ValueText(ps[k].value));
      LowerAppend(ps[k].key, ":");
      LowerAppend(qs[k].key + ":", ValueText(qs[k].value));
      LowerAppend(qs[k].key, ":");
    }
    LowerJoin(Fields(ps), Fields(qs), "_");
  }

  /** The key is not injective: two queries that differ only in case, a value
      holding the delimiters, and a missing value against the text "none" all
      collide. */
  lemma QueryKeyCollisions()
    ensures [Param("ort", Some("Mannheim"))] != [Param("ort", Some("mannheim"))]
    ensures QueryKey([Param("ort", Some("Mannheim"))]) == QueryKey([Param("ort", Some("mannheim"))])
    ensures QueryKey([Param("a", Some("b_c:d"))]) == QueryKey([Param("a", Some("b")), Param("c", Some("d"))])
    ensures QueryKey([Param("ort", None)]) == QueryKey([Param("ort", Some("none"))])
  {
  }

  // ---------------------------------------------------------------------------
  // Keyword match mode
  // ---------------------------------------------------------------------------

  /** `schlagwortOptionen`: the form code of each keyword match mode. */
  const SchlagwortOptionen: map<string, nat> := map["all" := 1, "min" := 2, "exact" := 3]

  /** `schlagwortOptionen.get(option)` */
  function SchlagwortOptionId(option: string): (r: Option<nat>)
    ensures r.Some? <==> option == "all" || option == "min" || option == "exact"
  {
    if option in SchlagwortOptionen then Some(SchlagwortOptionen[option]) else None
  }

  /** The value put into the form field: `str(so_id)`, "None" for an unknown mode. */
  function SchlagwortFormValue(option: string): string {
    match SchlagwortOptionId(option)
    case None => "None"
    case Some(id) => NatToString(id)
  }

  /** all, min and exact get the codes 1, 2 and 3, distinct, and any other
      text gets none. */
  lemma SchlagwortOptionCodes(option: string)
    ensures SchlagwortOptionId("all") == Some(1)
    ensures SchlagwortOptionId("min") == Some(2)
    ensures SchlagwortOptionId("exact") == Some(3)
    ensures SchlagwortOptionId(option).Some? ==> 1 <= SchlagwortOptionId(option).value <= 3
    ensures SchlagwortOptionId(option).None? ==> SchlagwortFormValue(option) == "None"
  {
  }

  /** Different accepted modes get different codes. */
  lemma SchlagwortOptionIdInjective(a: string, b: string)
    requires SchlagwortOptionId(a).Some? && SchlagwortOptionId(a) == SchlagwortOptionId(b)
    ensures a == b
  {
  }
}
