/** The cloud-bucket scanner: list the children under a prefix, count the
    objects under `<child>/completed/` and `<child>/errorFile/` for each of
    them, and shape the result as report rows.

    The object-listing endpoint is modelled by what it answers: a sequence of
    replies, one per request, in the order the paginated loop sends them.
    A reply is a page (its names or sub-prefixes and its continuation token)
    or a request that raised. The token value itself is opaque: the model
    only records whether it is present and non-empty. */
module GcsScan {
  import opened Outcome
  import opened Strings
  import opened Order
  import opened Seqs
  import Csv

  /** One answer of the listing endpoint. */
  datatype Reply = Page(entries: seq<string>, nextToken: Option<string>) | Failed

  datatype ScanError = NoAccessToken | RequestFailed

  /** The loop asks for another page only after a page with a non-empty token. */
  predicate HasNext(r: Reply)
  {
    r.Page? && Truthy(r.nextToken)
  }

  /** The listing ends: some reply stops the paginated loop. */
  ghost predicate Finite(rs: seq<Reply>)
  {
    exists i :: 0 <= i < |rs| && !HasNext(rs[i])
  }

  lemma FiniteTail(rs: seq<Reply>)
    requires Finite(rs) && HasNext(rs[0])
    ensures Finite(rs[1..])
  {
    var i :| 0 <= i < |rs| && !HasNext(rs[i]);
    assert !HasNext(rs[1..][i - 1]);
  }

  /** The replies the paginated loop reads: up to and including the first
      one that carries no continuation token or that failed. */
  function Served(rs: seq<Reply>): (r: seq<Reply>)
    requires Finite(rs)
    ensures 0 < |r| <= |rs| && r == rs[..|r|]
    ensures !HasNext(r[|r| - 1])
    ensures forall i :: 0 <= i < |r| - 1 ==> HasNext(r[i])
    decreases |rs|
  {
    if !HasNext(rs[0]) then [rs[0]]
    else
      FiniteTail(rs);
      [rs[0]] + Served(rs[1..])
  }

  /** The first reply that stops the loop is the last one served. */
  lemma LastServed(rs: seq<Reply>, i: nat)
    requires Finite(rs) && i < |Served(rs)| && !HasNext(Served(rs)[i])
    ensures i == |Served(rs)| - 1
    ensures Served(rs)[..i + 1] == Served(rs)
  {
    WholeSlice(Served(rs));
  }

  /** The served replies end in a failed request. */
  predicate EndsInFailure(served: seq<Reply>)
  {
    |served| > 0 && served[|served| - 1].Failed?
  }

  /** The names (or sub-prefixes) of all pages, in page order. */
  function Entries(rs: seq<Reply>): seq<string>
  {
    if rs == [] then []
    else
      var last := rs[|rs| - 1];
      Entries(rs[..|rs| - 1]) + (if last.Page? then last.entries else [])
  }

  /** Reading one more page adds its names at the end. */
  lemma EntriesStep(rs: seq<Reply>, i: nat)
    requires i < |rs| && rs[i].Page?
    ensures Entries(rs[..i + 1]) == Entries(rs[..i]) + rs[i].entries
    ensures PageSizes(rs[..i + 1]) == PageSizes(rs[..i]) + |rs[i].entries|
  {
    assert rs[..i + 1][..i] == rs[..i];
  }

  /** The sum of `len(items)` over the pages. */
  function PageSizes(rs: seq<Reply>): nat
  {
    if rs == [] then 0
    else
      var last := rs[|rs| - 1];
      PageSizes(rs[..|rs| - 1]) + (if last.Page? then |last.entries| else 0)
  }

  /** Summing the page sizes counts every listed name exactly once. */
  lemma {:induction false} PageSizesCountEntries(rs: seq<Reply>)
    ensures PageSizes(rs) == |Entries(rs)|
    decreases |rs|
  {
    if rs != [] {
      PageSizesCountEntries(rs[..|rs| - 1]);
    }
  }

  /** Page sizes add up across consecutive runs of pages. */
  lemma {:induction false} PageSizesAppend(a: seq<Reply>, b: seq<Reply>)
    ensures PageSizes(a + b) == PageSizes(a) + PageSizes(b)
    decreases |b|
  {
    if b == [] {
      assert a + b == a;
    } else {
      assert (a + b)[..|a + b| - 1] == a + b[..|b| - 1];
      assert (a + b)[|a + b| - 1] == b[|b| - 1];
      PageSizesAppend(a, b[..|b| - 1]);
    }
  }

  /** Prefix normalisation: a non-empty prefix is made to end with `/`. */
  function NormalizePrefix(prefix: string): (r: string)
    ensures prefix == "" ==> r == ""
    ensures prefix != "" ==> EndsWith(r, "/")
    ensures EndsWith(prefix, "/") ==> r == prefix
    ensures r == prefix || r == prefix + "/"
  {
    if prefix != "" && !EndsWith(prefix, "/") then prefix + "/" else prefix
  }

  /** `s[len(prefix):] if prefix and s.startswith(prefix) else s`. */
  function StripPrefix(prefix: string, s: string): (r: string)
    ensures r == s || (prefix != "" && s == prefix + r)
    ensures prefix != "" && StartsWith(s, prefix) ==> s == prefix + r
  {
    if prefix != "" && StartsWith(s, prefix) then s[|prefix|..] else s
  }

  /** The child a delimiter listing's sub-prefix names: the first segment of
      the sub-prefix after the prefix, once trailing slashes are removed. */
  function SubPrefixChild(prefix: string, p: string): (child: string)
    ensures '/' !in child
    ensures StartsWith(StripPrefix(prefix, p), child)
    ensures var t := StripRight(StripPrefix(prefix, p), {'/'});
      StartsWith(t, child) && (child == t || t[|child|] == '/')
  {
    FirstSegment(StripRight(StripPrefix(prefix, p), {'/'}), '/')
  }

  /** The child a full object name lies under: the first segment of the name
      after the prefix (no trailing slashes are removed here). */
  function ObjectChild(prefix: string, name: string): (child: string)
    ensures '/' !in child
    ensures StartsWith(StripPrefix(prefix, name), child)
    ensures child == StripPrefix(prefix, name) || StripPrefix(prefix, name)[|child|] == '/'
  {
    FirstSegment(StripPrefix(prefix, name), '/')
  }

  /** Removing the prefix from a name that starts with it leaves the rest. */
  lemma StripPrefixOf(prefix: string, rest: string)
    ensures StripPrefix(prefix, prefix + rest) == rest
  {
    if prefix != "" {
      var s := prefix + rest;
      assert s[..|prefix|] == prefix;
      assert s[|prefix|..] == rest;
    }
  }

  /** A text without `/` is its own first segment. */
  lemma FirstSegmentWhole(c: string)
    requires '/' !in c
    ensures FirstSegment(c, '/') == c
  {
    assert FirstIndex(c, '/') == |c|;
  }

  /** The sub-prefix `prefix + c + "/"` of a folder `c` names that folder. */
  lemma SubPrefixNamesFolder(prefix: string, c: string)
    requires c != "" && '/' !in c
    ensures SubPrefixChild(prefix, prefix + c + "/") == c
  {
    assert prefix + c + "/" == prefix + (c + "/");
    StripPrefixOf(prefix, c + "/");
    var t := c + "/";
    assert t[..|t| - 1] == c;
    assert StripRight(t, {'/'}) == StripRight(c, {'/'});
    assert c[|c| - 1] in c;
    assert StripRight(c, {'/'}) == c;
    FirstSegmentWhole(c);
  }

  /** Every object `prefix + c + "/" + rest` inside a folder `c` names that folder. */
  lemma ObjectNamesFolder(prefix: string, c: string, rest: string)
    requires c != "" && '/' !in c
    ensures ObjectChild(prefix, prefix + c + "/" + rest) == c
  {
    var s := c + "/" + rest;
    assert prefix + c + "/" + rest == prefix + s;
    StripPrefixOf(prefix, s);
    assert s[|c|] == '/';
    assert FirstIndex(s, '/') == |c|;
    assert s[..|c|] == c;
  }

  /** In the fallback, an object lying directly under the prefix (not inside
      any folder) is taken as a child of its own name. */
  lemma LooseObjectIsChild(prefix: string, f: string)
    requires f != "" && '/' !in f
    ensures ObjectChildren(prefix, [prefix + f]) == {f}
  {
    StripPrefixOf(prefix, f);
    FirstSegmentWhole(f);
    assert [prefix + f][..0] == [];
  }

  /** The non-empty children of a run of sub-prefixes, in order, duplicates kept. */
  function PageChildren(prefix: string, subPrefixes: seq<string>): (r: seq<string>)
    ensures |r| <= |subPrefixes|
    ensures forall i :: 0 <= i < |r| ==> r[i] != "" && '/' !in r[i]
  {
    if subPrefixes == [] then []
    else
      var init := PageChildren(prefix, subPrefixes[..|subPrefixes| - 1]);
      var child := SubPrefixChild(prefix, subPrefixes[|subPrefixes| - 1]);
      if child != "" then init + [child] else init
  }

  /** Children are collected page after page: the list for two runs of
      sub-prefixes is the list for the first followed by the list for the second. */
  lemma {:induction false} PageChildrenAppend(prefix: string, a: seq<string>, b: seq<string>)
    ensures PageChildren(prefix, a + b) == PageChildren(prefix, a) + PageChildren(prefix, b)
    decreases |b|
  {
    if b == [] {
      assert a + b == a;
    } else {
      AppendInit(a, b);
      PageChildrenAppend(prefix, a, b[..|b| - 1]);
    }
  }

  lemma PageChildrenStep(prefix: string, before: seq<string>, page: seq<string>, j: nat)
    requires j < |page|
    ensures var child := SubPrefixChild(prefix, page[j]);
      PageChildren(prefix, before + page[..j + 1])
      == PageChildren(prefix, before + page[..j]) + (if child != "" then [child] else [])
  {
    assert before + page[..j + 1] == (before + page[..j]) + [page[j]];
    PageChildrenSnoc(prefix, before + page[..j], page[j]);
  }

  lemma PageChildrenSnoc(prefix: string, xs: seq<string>, p: string)
    ensures var child := SubPrefixChild(prefix, p);
      PageChildren(prefix, xs + [p]) == PageChildren(prefix, xs) + (if child != "" then [child] else [])
  {
    assert (xs + [p])[..|xs|] == xs;
  }

  /** The set of non-empty first segments of object names after the prefix. */
  function ObjectChildren(prefix: string, names: seq<string>): (r: set<string>)
    ensures forall c :: c in r ==> c != "" && '/' !in c
    ensures forall c :: c in r <==> c != "" && exists n :: n in names && ObjectChild(prefix, n) == c
  {
    if names == [] then {}
    else
      var init := ObjectChildren(prefix, names[..|names| - 1]);
      var child := ObjectChild(prefix, names[|names| - 1]);
      assert forall n :: n in names <==> n in names[..|names| - 1] || n == names[|names| - 1];
      if child != "" then init + {child} else init
  }

  lemma ObjectChildrenStep(prefix: string, before: seq<string>, page: seq<string>, j: nat)
    requires j < |page|
    ensures var child := ObjectChild(prefix, page[j]);
      ObjectChildren(prefix, before + page[..j + 1])
      == ObjectChildren(prefix, before + page[..j]) + (if child != "" then {child} else {})
  {
    assert (before + page[..j + 1])[..|before| + j] == before + page[..j];
  }

  /** The children of one page's sub-prefixes, appended in order. */
  method AppendPageChildren(prefix: string, acc: seq<string>, ghost before: seq<string>, page: seq<string>)
    returns (out: seq<string>)
    requires acc == PageChildren(prefix, before)
    ensures out == PageChildren(prefix, before + page)
  {
    out := acc;
    assert before + page[..0] == before;
    for j := 0 to |page|
      invariant out == PageChildren(prefix, before + page[..j])
    {
      PageChildrenStep(prefix, before, page, j);
      var child := SubPrefixChild(prefix, page[j]);
      if child != "" {
        out := out + [child];
      }
    }
    WholeSlice(page);
  }

  /** The children of one page's object names, added to the set. */
  method AddObjectChildren(prefix: string, acc: set<string>, ghost before: seq<string>, page: seq<string>)
    returns (out: set<string>)
    requires acc == ObjectChildren(prefix, before)
    ensures out == ObjectChildren(prefix, before + page)
  {
    out := acc;
    assert before + page[..0] == before;
    for j := 0 to |page|
      invariant out == ObjectChildren(prefix, before + page[..j])
    {
      ObjectChildrenStep(prefix, before, page, j);
      var child := ObjectChild(prefix, page[j]);
      if child != "" {
        out := out + {child};
      }
    }
    WholeSlice(page);
  }

  /** `_list_prefixes`: follow the delimiter listing page by page and collect
      the child of every sub-prefix, in page order. */
  method ListPrefixes(prefix: string, rs: seq<Reply>) returns (r: Result<seq<string>, ScanError>)
    requires Finite(rs)
    ensures r.Err? <==> EndsInFailure(Served(rs))
    ensures r.Err? ==> r.error == RequestFailed
    ensures r.Ok? ==> r.value == PageChildren(prefix, Entries(Served(rs)))
  {
    ghost var served := Served(rs);
    var prefixes: seq<string> := [];
    var i := 0;
    while true
      invariant 0 <= i < |served|
      invariant prefixes == PageChildren(prefix, Entries(served[..i]))
      decreases |served| - i
    {
      assert rs[i] == served[i];
      if rs[i].Failed? {
        LastServed(rs, i);
        return Err(RequestFailed);
      }
      var pfxs := rs[i].entries;
      prefixes := AppendPageChildren(prefix, prefixes, Entries(served[..i]), pfxs);
      EntriesStep(served, i);
      if !HasNext(rs[i]) {
        LastServed(rs, i);
        break;
      }
      i := i + 1;
    }
    return Ok(prefixes);
  }

  /** `_count_objects`: follow the plain listing page by page and add up the
      number of names on every page. */
  method CountObjects(rs: seq<Reply>) returns (r: Result<nat, ScanError>)
    requires Finite(rs)
    ensures r.Err? <==> EndsInFailure(Served(rs))
    ensures r.Err? ==> r.error == RequestFailed
    ensures r.Ok? ==> r.value == PageSizes(Served(rs))
  {
    ghost var served := Served(rs);
    var total := 0;
    var i := 0;
    while true
      invariant 0 <= i < |served|
      invariant total == PageSizes(served[..i])
      decreases |served| - i
    {
      assert rs[i] == served[i];
      if rs[i].Failed? {
        LastServed(rs, i);
        return Err(RequestFailed);
      }
      total := total + |rs[i].entries|;
      EntriesStep(served, i);
      if !HasNext(rs[i]) {
        LastServed(rs, i);
        break;
      }
      i := i + 1;
    }
    return Ok(total);
  }

  /** The fallback of `scan_bucket`: list every object under the prefix,
      page by page, and collect the first segment of each name into a set. */
  method FallbackChildren(prefix: string, rs: seq<Reply>) returns (r: Result<set<string>, ScanError>)
    requires Finite(rs)
    ensures r.Err? <==> EndsInFailure(Served(rs))
    ensures r.Err? ==> r.error == RequestFailed
    ensures r.Ok? ==> r.value == ObjectChildren(prefix, Entries(Served(rs)))
  {
    ghost var served := Served(rs);
    var seen: set<string> := {};
    var i := 0;
    while true
      invariant 0 <= i < |served|
      invariant seen == ObjectChildren(prefix, Entries(served[..i]))
      decreases |served| - i
    {
      assert rs[i] == served[i];
      if rs[i].Failed? {
        LastServed(rs, i);
        return Err(RequestFailed);
      }
      var items := rs[i].entries;
      seen := AddObjectChildren(prefix, seen, Entries(served[..i]), items);
      EntriesStep(served, i);
      if !HasNext(rs[i]) {
        LastServed(rs, i);
        break;
      }
      i := i + 1;
    }
    return Ok(seen);
  }

  /** Where the access token can come from, in the order they are tried: the
      `access_token` of the metadata server's answer (None when that request
      raised or had none), the `GCS_ACCESS_TOKEN` environment variable, and
      the output of `gcloud auth print-access-token` (None when it raised). */
  datatype TokenSources = TokenSources(metadata: Option<string>, environment: Option<string>, gcloud: Option<string>)

  /** `get_access_token`: the first source that yields a non-empty token wins;
      the command's output counts once surrounding whitespace is removed. */
  function AccessToken(t: TokenSources): (r: Result<string, ScanError>)
    ensures r.Ok? ==> r.value != ""
    ensures r.Err? <==> !Truthy(t.metadata) && !Truthy(t.environment) && (t.gcloud.None? || Strip(t.gcloud.value) == "")
    ensures r.Err? ==> r.error == NoAccessToken
    ensures Truthy(t.metadata) ==> r == Ok(t.metadata.value)
    ensures !Truthy(t.metadata) && Truthy(t.environment) ==> r == Ok(t.environment.value)
    ensures !Truthy(t.metadata) && !Truthy(t.environment) && r.Ok? ==> r.value == Strip(t.gcloud.value)
  {
    if Truthy(t.metadata) then Ok(t.metadata.value)
    else if Truthy(t.environment) then Ok(t.environment.value)
    else if t.gcloud.Some? && Strip(t.gcloud.value) != "" then Ok(Strip(t.gcloud.value))
    else Err(NoAccessToken)
  }

  /** The bucket, as its listing endpoint answers: for each queried prefix,
      the replies to a delimiter (`/`) listing and to a plain listing. A
      prefix that is not in a map answers with one empty, final page. */
  datatype Bucket = Bucket(delimited: map<string, seq<Reply>>, plain: map<string, seq<Reply>>)

  /** Every listing the bucket answers comes to an end. */
  ghost predicate Answers(b: Bucket)
  {
    (forall p :: p in b.delimited ==> Finite(b.delimited[p])) &&
    (forall p :: p in b.plain ==> Finite(b.plain[p]))
  }

  function DelimitedListing(b: Bucket, prefix: string): (rs: seq<Reply>)
    requires Answers(b)
    ensures Finite(rs)
  {
    if prefix in b.delimited then b.delimited[prefix]
    else
      var empty := [Page([], None)];
      assert !HasNext(empty[0]);
      empty
  }

  function PlainListing(b: Bucket, prefix: string): (rs: seq<Reply>)
    requires Answers(b)
    ensures Finite(rs)
  {
    if prefix in b.plain then b.plain[prefix]
    else
      var empty := [Page([], None)];
      assert !HasNext(empty[0]);
      empty
  }

  /** The children found under the (normalised) prefix: those of the delimiter
      listing, or, when that listing fails, those of the plain listing. */
  function DiscoveredChildren(b: Bucket, prefix: string): (r: Result<set<string>, ScanError>)
    requires Answers(b)
    ensures r.Ok? ==> forall c :: c in r.value ==> c != "" && '/' !in c
  {
    var listed := Served(DelimitedListing(b, prefix));
    if !EndsInFailure(listed) then
      var children := PageChildren(prefix, Entries(listed));
      Ok(set c | c in children)
    else
      var all := Served(PlainListing(b, prefix));
      if EndsInFailure(all) then Err(RequestFailed)
      else Ok(ObjectChildren(prefix, Entries(all)))
  }

  /** The number of objects the plain listing of `prefix` reports. */
  function ObjectCount(b: Bucket, prefix: string): Result<nat, ScanError>
    requires Answers(b)
  {
    var served := Served(PlainListing(b, prefix));
    if EndsInFailure(served) then Err(RequestFailed) else Ok(PageSizes(served))
  }

  /** The prefix whose objects are a child's processed files. */
  function ProcessedPrefix(prefix: string, child: string): (r: string)
    ensures r == prefix + child + "/completed/"
  {
    if prefix != "" then prefix + child + "/completed/" else child + "/completed/"
  }

  /** The prefix whose objects are a child's failed files. */
  function ErrorPrefix(prefix: string, child: string): (r: string)
    ensures r == prefix + child + "/errorFile/"
  {
    if prefix != "" then prefix + child + "/errorFile/" else child + "/errorFile/"
  }

  /** One entry of the report: the child and its count dictionary. */
  datatype Entry = Entry(item: string, counts: map<string, int>)

  /** The count dictionary of one child. */
  function CountDict(processed: nat, error: nat): (d: map<string, int>)
    ensures d.Keys == {"processed", "error", "total"}
    ensures d["processed"] == processed && d["error"] == error
    ensures d["total"] == d["processed"] + d["error"]
  {
    map["processed" := processed, "error" := error, "total" := processed + error]
  }

  /** The entry's counts are those the two listings of its child report. */
  predicate CountsListed(b: Bucket, prefix: string, e: Entry)
    requires Answers(b)
  {
    "processed" in e.counts && "error" in e.counts &&
    ObjectCount(b, ProcessedPrefix(prefix, e.item)) == Ok(e.counts["processed"]) &&
    ObjectCount(b, ErrorPrefix(prefix, e.item)) == Ok(e.counts["error"])
  }

  /** A report entry as the scan produces it: non-negative counts whose total is their sum. */
  predicate WellFormed(e: Entry)
  {
    e.counts.Keys == {"processed", "error", "total"} &&
    e.counts["processed"] >= 0 && e.counts["error"] >= 0 &&
    e.counts["total"] == e.counts["processed"] + e.counts["error"]
  }

  /** The report for `children`, visited in the order given; the first
      failed count request aborts it. */
  function Report(b: Bucket, prefix: string, children: seq<string>): Result<seq<Entry>, ScanError>
    requires Answers(b)
  {
    if children == [] then Ok([])
    else
      var child := children[|children| - 1];
      match Report(b, prefix, children[..|children| - 1])
      case Err(e) => Err(e)
      case Ok(entries) =>
        match ObjectCount(b, ProcessedPrefix(prefix, child))
        case Err(e) => Err(e)
        case Ok(processed) =>
          match ObjectCount(b, ErrorPrefix(prefix, child))
          case Err(e) => Err(e)
          case Ok(error) => Ok(entries + [Entry(child, CountDict(processed, error))])
  }

  /** A successful report has one well-formed entry per child, in the same
      order, whose counts are those of the child's two listings. */
  lemma ReportEntries(b: Bucket, prefix: string, children: seq<string>)
    requires Answers(b)
    requires Report(b, prefix, children).Ok?
    ensures var entries := Report(b, prefix, children).value;
      |entries| == |children| &&
      forall i :: 0 <= i < |children| ==>
        entries[i].item == children[i] && WellFormed(entries[i]) && CountsListed(b, prefix, entries[i])
  {
    ReportItems(b, prefix, children);
    ReportCounts(b, prefix, children);
  }

  /** A successful report extends the report of all children but the last
      by the last child's entry. */
  lemma ReportLast(b: Bucket, prefix: string, children: seq<string>)
    requires Answers(b)
    requires children != [] && Report(b, prefix, children).Ok?
    ensures var last := children[|children| - 1];
      Report(b, prefix, children[..|children| - 1]).Ok? &&
      ObjectCount(b, ProcessedPrefix(prefix, last)).Ok? &&
      ObjectCount(b, ErrorPrefix(prefix, last)).Ok? &&
      Report(b, prefix, children).value == Report(b, prefix, children[..|children| - 1]).value +
        [Entry(last, CountDict(ObjectCount(b, ProcessedPrefix(prefix, last)).value, ObjectCount(b, ErrorPrefix(prefix, last)).value))]
  {
  }

  lemma {:induction false} ReportItems(b: Bucket, prefix: string, children: seq<string>)
    requires Answers(b)
    requires Report(b, prefix, children).Ok?
    ensures var entries := Report(b, prefix, children).value;
      |entries| == |children| && forall i :: 0 <= i < |children| ==> entries[i].item == children[i]
    decreases |children|
  {
    if children != [] {
      var init := children[..|children| - 1];
      ReportLast(b, prefix, children);
      ReportItems(b, prefix, init);
      var entries := Report(b, prefix, children).value;
      ItemsExtend(Report(b, prefix, init).value, init, entries, children, entries[|entries| - 1].counts);
    }
  }

  lemma ItemsExtend(prev: seq<Entry>, init: seq<string>, entries: seq<Entry>, children: seq<string>, counts: map<string, int>)
    requires children != [] && init == children[..|children| - 1]
    requires |prev| == |init| && forall i :: 0 <= i < |init| ==> prev[i].item == init[i]
    requires entries == prev + [Entry(children[|children| - 1], counts)]
    ensures |entries| == |children| && forall i :: 0 <= i < |children| ==> entries[i].item == children[i]
  {
  }

  lemma {:induction false} ReportCounts(b: Bucket, prefix: string, children: seq<string>)
    requires Answers(b)
    requires Report(b, prefix, children).Ok?
    ensures var entries := Report(b, prefix, children).value;
      forall i :: 0 <= i < |entries| ==> WellFormed(entries[i]) && CountsListed(b, prefix, entries[i])
    decreases |children|
  {
    if children != [] {
      ReportLast(b, prefix, children);
      ReportCounts(b, prefix, children[..|children| - 1]);
    }
  }

  /** Once a count on the way fails, the whole report fails. */
  lemma {:induction false} ReportFailureSticks(b: Bucket, prefix: string, children: seq<string>, k: nat)
    requires Answers(b)
    requires k <= |children|
    requires Report(b, prefix, children[..k]).Err?
    ensures Report(b, prefix, children) == Err(RequestFailed)
    decreases |children| - k
  {
    assert Report(b, prefix, children[..k]) == Err(RequestFailed) by {
      ReportErrorIsRequestFailed(b, prefix, children[..k]);
    }
    if k < |children| {
      assert children[..k + 1][..k] == children[..k];
      ReportFailureSticks(b, prefix, children, k + 1);
    } else {
      assert children[..k] == children;
    }
  }

  lemma {:induction false} ReportErrorIsRequestFailed(b: Bucket, prefix: string, children: seq<string>)
    requires Answers(b)
    ensures Report(b, prefix, children).Err? ==> Report(b, prefix, children).error == RequestFailed
    decreases |children|
  {
    if children != [] {
      ReportErrorIsRequestFailed(b, prefix, children[..|children| - 1]);
    }
  }

  /** `scan_bucket`: the report the scan produces for a bucket, a prefix and
      the token sources. */
  ghost function Scan(b: Bucket, prefix: string, tokens: TokenSources): Result<seq<Entry>, ScanError>
    requires Answers(b)
  {
    if AccessToken(tokens).Err? then Err(NoAccessToken)
    else
      var p := NormalizePrefix(prefix);
      match DiscoveredChildren(b, p)
      case Err(e) => Err(e)
      case Ok(children) => Report(b, p, Sorted(children))
  }

  lemma ScanUnfold(b: Bucket, prefix: string, tokens: TokenSources)
    requires Answers(b)
    requires Scan(b, prefix, tokens).Ok?
    ensures DiscoveredChildren(b, NormalizePrefix(prefix)).Ok?
    ensures Scan(b, prefix, tokens) == Report(b, NormalizePrefix(prefix), Sorted(DiscoveredChildren(b, NormalizePrefix(prefix)).value))
  {
  }

  /** The report's shape: its items are exactly the discovered children, in
      ascending order and without repetition, and every entry holds the two
      counts of its child with their sum as total. */
  lemma ScanReport(b: Bucket, prefix: string, tokens: TokenSources, entries: seq<Entry>)
    requires Answers(b)
    requires Scan(b, prefix, tokens) == Ok(entries)
    ensures DiscoveredChildren(b, NormalizePrefix(prefix)).Ok?
    ensures forall c :: c in DiscoveredChildren(b, NormalizePrefix(prefix)).value <==>
      exists i :: 0 <= i < |entries| && entries[i].item == c
    ensures forall i, j :: 0 <= i < j < |entries| ==> Less(entries[i].item, entries[j].item)
    ensures forall i :: 0 <= i < |entries| ==> WellFormed(entries[i])
    ensures forall i :: 0 <= i < |entries| ==> CountsListed(b, NormalizePrefix(prefix), entries[i])
  {
    ScanUnfold(b, prefix, tokens);
    SortedReport(b, NormalizePrefix(prefix), DiscoveredChildren(b, NormalizePrefix(prefix)).value, entries);
  }

  /** The report over the children of a set, visited in ascending order. */
  lemma SortedReport(b: Bucket, prefix: string, found: set<string>, entries: seq<Entry>)
    requires Answers(b)
    requires Report(b, prefix, Sorted(found)) == Ok(entries)
    ensures forall c :: c in found <==> exists i :: 0 <= i < |entries| && entries[i].item == c
    ensures forall i, j :: 0 <= i < j < |entries| ==> Less(entries[i].item, entries[j].item)
    ensures forall i :: 0 <= i < |entries| ==> WellFormed(entries[i]) && CountsListed(b, prefix, entries[i])
  {
    var children := Sorted(found);
    ReportItems(b, prefix, children);
    ReportCounts(b, prefix, children);
    ItemsInOrder(found, children, entries);
  }

  /** Entries that follow a sorted listing of a set, item for item, hold the
      set's members in ascending order. */
  lemma ItemsInOrder(found: set<string>, children: seq<string>, entries: seq<Entry>)
    requires children == Sorted(found)
    requires |entries| == |children| && forall i :: 0 <= i < |children| ==> entries[i].item == children[i]
    ensures forall c :: c in found <==> exists i :: 0 <= i < |entries| && entries[i].item == c
    ensures forall i, j :: 0 <= i < j < |entries| ==> Less(entries[i].item, entries[j].item)
  {
    forall i, j | 0 <= i < j < |entries|
      ensures Less(entries[i].item, entries[j].item)
    {
      assert entries[i].item == children[i] && entries[j].item == children[j];
    }
    forall c
      ensures c in found <==> exists i :: 0 <= i < |entries| && entries[i].item == c
    {
      if c in found {
        var i :| 0 <= i < |children| && children[i] == c;
        assert entries[i].item == c;
      }
    }
  }

  /** A prefix with nothing under it gives an empty report, not an error. */
  lemma EmptyPrefixEmptyReport(b: Bucket, prefix: string, tokens: TokenSources)
    requires Answers(b)
    requires AccessToken(tokens).Ok?
    requires NormalizePrefix(prefix) !in b.delimited
    ensures Scan(b, prefix, tokens) == Ok([])
  {
    var p := NormalizePrefix(prefix);
    var listed := Served(DelimitedListing(b, p));
    assert listed == [Page([], None)];
    assert Entries(listed) == Entries(listed[..0]) + [];
    var children := PageChildren(p, Entries(listed));
    assert children == [];
    assert !EndsInFailure(listed);
    assert (set c | c in children) == {};
    assert DiscoveredChildren(b, p) == Ok({});
    assert Sorted({}) == [];
  }

  /** `scan_bucket`: fetch a token, normalise the prefix, discover the
      children (falling back to the plain listing when the delimiter listing
      fails), then count both sub-prefixes of every child in ascending order. */
  method ScanBucket(b: Bucket, prefix: string, tokens: TokenSources) returns (r: Result<seq<Entry>, ScanError>)
    requires Answers(b)
    ensures r == Scan(b, prefix, tokens)
  {
    var token := AccessToken(tokens);
    if token.Err? {
      return Err(NoAccessToken);
    }
    var p := NormalizePrefix(prefix);
    var seen: set<string>;
    var listed := ListPrefixes(p, DelimitedListing(b, p));
    if listed.Ok? {
      seen := set c | c in listed.value;
    } else {
      var fallback := FallbackChildren(p, PlainListing(b, p));
      if fallback.Err? {
        return Err(fallback.error);
      }
      seen := fallback.value;
    }
    assert DiscoveredChildren(b, p) == Ok(seen);
    assert Scan(b, prefix, tokens) == Report(b, p, Sorted(seen));
    var children := SortNames(seen);
    r := CountChildren(b, p, children);
  }

  /** The loop of `scan_bucket` over the sorted children: count both
      sub-prefixes of each child and record its entry; a failed count request
      aborts the scan. */
  method CountChildren(b: Bucket, prefix: string, children: seq<string>) returns (r: Result<seq<Entry>, ScanError>)
    requires Answers(b)
    ensures r == Report(b, prefix, children)
  {
    var counts: seq<Entry> := [];
    for k := 0 to |children|
      invariant Report(b, prefix, children[..k]) == Ok(counts)
    {
      var child := children[k];
      var processed := CountObjects(PlainListing(b, ProcessedPrefix(prefix, child)));
      assert processed == ObjectCount(b, ProcessedPrefix(prefix, child));
      if processed.Err? {
        ReportStep(b, prefix, children, k);
        ReportFailureSticks(b, prefix, children, k + 1);
        return Err(processed.error);
      }
      var error := CountObjects(PlainListing(b, ErrorPrefix(prefix, child)));
      assert error == ObjectCount(b, ErrorPrefix(prefix, child));
      if error.Err? {
        ReportStep(b, prefix, children, k);
        ReportFailureSticks(b, prefix, children, k + 1);
        return Err(error.error);
      }
      ReportStep(b, prefix, children, k);
      counts := counts + [Entry(child, CountDict(processed.value, error.value))];
    }
    WholeSlice(children);
    return Ok(counts);
  }

  /** Extending the visited children by one adds that child's entry, or fails
      when one of its two counts fails. */
  lemma ReportStep(b: Bucket, prefix: string, children: seq<string>, k: nat)
    requires Answers(b)
    requires k < |children|
    requires Report(b, prefix, children[..k]).Ok?
    ensures var child := children[k];
      var processed := ObjectCount(b, ProcessedPrefix(prefix, child));
      var error := ObjectCount(b, ErrorPrefix(prefix, child));
      Report(b, prefix, children[..k + 1]) ==
        if processed.Err? || error.Err? then Err(RequestFailed)
        else Ok(Report(b, prefix, children[..k]).value + [Entry(child, CountDict(processed.value, error.value))])
  {
    assert children[..k + 1][..k] == children[..k];
  }

  /** `v.get(key, 0)`. */
  function CountOrZero(counts: map<string, int>, key: string): int
  {
    if key in counts then counts[key] else 0
  }

  /** The CSV row of one report entry; a missing count is written as 0. */
  function EntryRow(e: Entry): Csv.Row
  {
    [e.item, IntToString(CountOrZero(e.counts, "processed")),
     IntToString(CountOrZero(e.counts, "error")), IntToString(CountOrZero(e.counts, "total"))]
  }

  /** `write_csv`: the header, then one row per report entry in report order. */
  method WriteCsv(report: seq<Entry>) returns (table: Csv.Table)
    ensures |table| == |report| + 1 && table[0] == Csv.Header
    ensures forall i :: 0 <= i < |report| ==> table[i + 1] == EntryRow(report[i])
  {
    table := [Csv.Header];
    for i := 0 to |report|
      invariant |table| == i + 1 && table[0] == Csv.Header
      invariant forall k :: 0 <= k < i ==> table[k + 1] == EntryRow(report[k])
    {
      table := table + [EntryRow(report[i])];
    }
  }

  /** In a written row of a well-formed entry the three counts are decimal
      numbers and the last is the sum of the other two. */
  lemma WrittenTotalAdds(e: Entry)
    requires WellFormed(e)
    ensures var row := EntryRow(e);
      |row| == 4 && row[0] == e.item &&
      IsDecimal(row[1]) && IsDecimal(row[2]) && IsDecimal(row[3]) &&
      DecimalValue(row[3]) == DecimalValue(row[1]) + DecimalValue(row[2])
  {
    NatToStringRoundTrip(e.counts["processed"]);
    NatToStringRoundTrip(e.counts["error"]);
    NatToStringRoundTrip(e.counts["total"]);
  }
}
