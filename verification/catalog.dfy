/** The two passes of `main` over the course's index page. The node pass
    turns every discipline link into a record keyed by discipline code; the
    edge pass hangs every prerequisite annotation on the nearest preceding
    link's record. Fetching is a lookup in a map from URL to parsed page. */
module Catalog {
  import opened Wrappers
  import opened PyStr
  import opened Document
  import opened Extraction

  /** Discipline codes are the last seven characters of a link and the first
      seven of a stripped annotation. */
  const CodeLength := 7

  /** The class of the discipline links on the index page. */
  const LinkClass := "link_gray"

  /** The class of the prerequisite annotations on the index page. */
  const AnnotationClass := "txt_arial_8pt_red"

  /** One entry of the configuration: `name`, `url`, `deps`, `bibliography`,
      `description` and `program`. */
  datatype Record = Record(
    name: string,
    url: string,
    deps: seq<string>,
    bibliography: string,
    description: string,
    program: string)

  datatype Field = NameField | BibliographyField | DescriptionField | ProgramField

  /** What aborts the run. In Python: a failed request, a `KeyError` on a
      missing `href` or on an owner code that is not a key, a `TypeError` or
      `AttributeError` on a missing `.string` or a search that found nothing. */
  datatype BuildError =
    | FetchFailed(url: string)
    | MissingHref(link: nat)
    | MissingLinkString(link: nat)
    | FieldNotFound(code: string, field: Field, cause: ExtractError)
    | NoOwningLink(annotation: nat)
    | MissingAnnotationString(annotation: nat)
    | UnknownOwner(code: string)

  /** The configuration dict: its entries, and its keys in insertion order
      (the order `json.dump` writes them). */
  datatype Catalog = Catalog(order: seq<string>, entries: map<string, Record>)

  /** The key order lists every key exactly once. */
  ghost predicate Valid(c: Catalog)
  {
    && (forall p, q :: 0 <= p < q < |c.order| ==> c.order[p] != c.order[q])
    && (forall k :: k in c.entries <==> k in c.order)
  }

  const Empty := Catalog([], map[])

  /** `find_all("a", class_="link_gray")` matches these tags. */
  predicate IsLink(n: Node)
  {
    n.name == "a" && LinkClass in n.classes
  }

  /** `find_all("span", class_="txt_arial_8pt_red")` matches these tags. */
  predicate IsAnnotation(n: Node)
  {
    n.name == "span" && AnnotationClass in n.classes
  }

  /** `s[-7:]`: the last min(7, |s|) characters. */
  function CodeOf(s: string): (r: string)
    ensures |r| == Min(CodeLength, |s|)
    ensures EndsWith(s, r)
  {
    SliceFrom(s, -CodeLength)
  }

  /** `s.strip()[:7]`: the first min(7, |stripped|) characters of the stripped string. */
  function DepCodeOf(s: string): (r: string)
    ensures |r| == Min(CodeLength, |Strip(s)|)
    ensures StartsWith(Strip(s), r)
  {
    SliceTo(Strip(s), CodeLength)
  }

  /** The code a link's text carries. */
  function LinkCode(n: Node): string
    requires n.ownString.Some?
  {
    CodeOf(n.ownString.value)
  }

  /** One discipline's detail page made into a record with no dependencies
      yet. The four fields are evaluated in the order of the dict literal
      (name first, then bibliography, description, program) and the first
      one that cannot be located aborts with that field named. */
  function ResolveDiscipline(page: Doc, url: string, code: string): (r: Result<Record, BuildError>)
    ensures r.Ok? <==> && DisciplineName(page).Ok?
                       && GetContent(Bibliography, page, "").Ok?
                       && GetContent(Description, page, "").Ok?
                       && GetContent(Program, page, "").Ok?
    ensures r.Ok? ==> r.value == Record(DisciplineName(page).value, url, [],
                                        GetContent(Bibliography, page, "").value,
                                        GetContent(Description, page, "").value,
                                        GetContent(Program, page, "").value)
    ensures DisciplineName(page).Err?
            ==> r == Err(FieldNotFound(code, NameField, DisciplineName(page).error))
    ensures DisciplineName(page).Ok? && GetContent(Bibliography, page, "").Err?
            ==> r == Err(FieldNotFound(code, BibliographyField, GetContent(Bibliography, page, "").error))
    ensures && DisciplineName(page).Ok? && GetContent(Bibliography, page, "").Ok?
            && GetContent(Description, page, "").Err?
            ==> r == Err(FieldNotFound(code, DescriptionField, GetContent(Description, page, "").error))
    ensures && DisciplineName(page).Ok? && GetContent(Bibliography, page, "").Ok?
            && GetContent(Description, page, "").Ok? && GetContent(Program, page, "").Err?
            ==> r == Err(FieldNotFound(code, ProgramField, GetContent(Program, page, "").error))
  {
    match DisciplineName(page)
    case Err(e) => Err(FieldNotFound(code, NameField, e))
    case Ok(name) =>
      match GetContent(Bibliography, page, "")
      case Err(e) => Err(FieldNotFound(code, BibliographyField, e))
      case Ok(bibliography) =>
        match GetContent(Description, page, "")
        case Err(e) => Err(FieldNotFound(code, DescriptionField, e))
        case Ok(description) =>
          match GetContent(Program, page, "")
          case Err(e) => Err(FieldNotFound(code, ProgramField, e))
          case Ok(program) => Ok(Record(name, url, [], bibliography, description, program))
  }

  /** A record ready to be stored under its code. */
  datatype Entry = Entry(code: string, record: Record)

  function Codes(es: seq<Entry>): (r: seq<string>)
    ensures |r| == |es| && forall t :: 0 <= t < |es| ==> r[t] == es[t].code
  {
    seq(|es|, t requires 0 <= t < |es| => es[t].code)
  }

  /** One iteration of the node loop for the link at index `i`: its URL is the
      base URL followed by its `href` (a `KeyError` when absent), its code the
      tail of its string (a `TypeError` when absent), and its record comes from
      the fetched detail page. */
  function ResolveLink(base: string, index: Doc, pages: map<string, Doc>, i: nat): (r: Result<Entry, BuildError>)
    requires i < |index|
    ensures "href" !in index[i].attrs ==> r == Err(MissingHref(i))
    ensures "href" in index[i].attrs && index[i].ownString.None? ==> r == Err(MissingLinkString(i))
    ensures && "href" in index[i].attrs && index[i].ownString.Some?
            && base + index[i].attrs["href"] !in pages
            ==> r == Err(FetchFailed(base + index[i].attrs["href"]))
    ensures && "href" in index[i].attrs && index[i].ownString.Some?
            && base + index[i].attrs["href"] in pages
            && ResolveDiscipline(pages[base + index[i].attrs["href"]], base + index[i].attrs["href"],
                                 LinkCode(index[i])).Err?
            ==> r == Err(ResolveDiscipline(pages[base + index[i].attrs["href"]], base + index[i].attrs["href"],
                                           LinkCode(index[i])).error)
    ensures r.Ok? ==> && "href" in index[i].attrs && index[i].ownString.Some?
                      && base + index[i].attrs["href"] in pages
                      && r.value.code == LinkCode(index[i])
                      && Ok(r.value.record) == ResolveDiscipline(pages[base + index[i].attrs["href"]],
                                                                 base + index[i].attrs["href"],
                                                                 r.value.code)
    ensures r.Ok? <==> && "href" in index[i].attrs && index[i].ownString.Some?
                       && base + index[i].attrs["href"] in pages
                       && ResolveDiscipline(pages[base + index[i].attrs["href"]], base + index[i].attrs["href"],
                                            LinkCode(index[i])).Ok?
  {
    var n := index[i];
    if "href" !in n.attrs then Err(MissingHref(i))
    else
      var url := base + n.attrs["href"];
      if n.ownString.None? then Err(MissingLinkString(i))
      else
        var code := LinkCode(n);
        if url !in pages then Err(FetchFailed(url))
        else
          var record :- ResolveDiscipline(pages[url], url, code);
          Ok(Entry(code, record))
  }

  /** `assets_config.update({code: record})`: a new key goes to the end of the
      key order, an existing key keeps its position and takes the new value. */
  function Upsert(c: Catalog, e: Entry): (r: Catalog)
    requires Valid(c)
    ensures Valid(r)
    ensures r.entries == c.entries[e.code := e.record]
    ensures e.code in c.entries ==> r.order == c.order
    ensures e.code !in c.entries ==> r.order == c.order + [e.code]
  {
    if e.code in c.entries then Catalog(c.order, c.entries[e.code := e.record])
    else Catalog(c.order + [e.code], c.entries[e.code := e.record])
  }

  /** The dict after the node loop has stored the entries `es`, in order. */
  function FromEntries(es: seq<Entry>): (r: Catalog)
    ensures Valid(r)
  {
    if es == [] then Empty
    else Upsert(FromEntries(es[..|es| - 1]), es[|es| - 1])
  }

  /** The position of the first occurrence of `k`. */
  function FirstIndex(codes: seq<string>, k: string): (r: nat)
    requires k in codes
    ensures r < |codes| && codes[r] == k
    ensures forall t :: 0 <= t < r ==> codes[t] != k
  {
    if codes[0] == k then 0 else 1 + FirstIndex(codes[1..], k)
  }

  /** `order` lists the distinct elements of `codes` in order of first appearance. */
  ghost predicate FirstSeenOrder(order: seq<string>, codes: seq<string>)
  {
    && (forall k :: k in order <==> k in codes)
    && forall p, q :: 0 <= p < q < |order| ==>
         order[p] in codes && order[q] in codes
         && FirstIndex(codes, order[p]) < FirstIndex(codes, order[q])
  }

  /** `es[t]` is the last entry with its code. */
  ghost predicate LastWithCode(es: seq<Entry>, t: int)
  {
    0 <= t < |es| && forall u :: t < u < |es| ==> es[u].code != es[t].code
  }

  lemma FirstIndexOfPrefix(codes: seq<string>, n: nat, k: string)
    requires n <= |codes| && k in codes[..n]
    ensures FirstIndex(codes, k) == FirstIndex(codes[..n], k)
  {
    var a, b := FirstIndex(codes, k), FirstIndex(codes[..n], k);
    assert codes[b] == k;
  }

  /** Appending a code to the stream keeps the first-seen order once the code
      is appended to the order exactly when it is new. */
  lemma FirstSeenOrderExtend(order: seq<string>, codes: seq<string>, x: string)
    requires FirstSeenOrder(order, codes)
    ensures x in codes ==> FirstSeenOrder(order, codes + [x])
    ensures x !in codes ==> FirstSeenOrder(order + [x], codes + [x])
  {
    var codes' := codes + [x];
    assert codes'[..|codes|] == codes;
    forall k | k in codes
      ensures k in codes' && FirstIndex(codes', k) == FirstIndex(codes, k)
    {
      FirstIndexOfPrefix(codes', |codes|, k);
    }
    if x !in codes {
      var order' := order + [x];
      assert FirstIndex(codes', x) == |codes|;
      forall p, q | 0 <= p < q < |order'|
        ensures order'[p] in codes' && order'[q] in codes'
        ensures FirstIndex(codes', order'[p]) < FirstIndex(codes', order'[q])
      {
        assert order'[p] == order[p];
        if q < |order| {
          assert order'[q] == order[q];
        }
      }
    }
  }

  /** The keys of the dict are the codes stored, in order of first appearance. */
  lemma {:induction false} FromEntriesOrder(es: seq<Entry>)
    ensures FirstSeenOrder(FromEntries(es).order, Codes(es))
    ensures forall k :: k in FromEntries(es).entries <==> k in Codes(es)
  {
    if es != [] {
      var n := |es| - 1;
      var prev, e := FromEntries(es[..n]), es[n];
      FromEntriesOrder(es[..n]);
      assert Codes(es) == Codes(es[..n]) + [e.code];
      FirstSeenOrderExtend(prev.order, Codes(es[..n]), e.code);
    }
  }

  /** A code repeated among the links ends up holding the later record. */
  lemma {:induction false} FromEntriesLastWins(es: seq<Entry>)
    ensures forall t :: LastWithCode(es, t) ==>
              es[t].code in FromEntries(es).entries && FromEntries(es).entries[es[t].code] == es[t].record
  {
    if es != [] {
      var n := |es| - 1;
      FromEntriesLastWins(es[..n]);
      forall t | LastWithCode(es, t)
        ensures es[t].code in FromEntries(es).entries && FromEntries(es).entries[es[t].code] == es[t].record
      {
        if t < n {
          assert LastWithCode(es[..n], t);
        }
      }
    }
  }

  /** The discipline links of the index page, each once, in document order. */
  function Links(index: Doc): (r: seq<nat>)
    ensures forall t :: 0 <= t < |r| ==> r[t] < |index| && IsLink(index[r[t]])
    ensures forall t, u :: 0 <= t < u < |r| ==> r[t] < r[u]
    ensures forall k :: 0 <= k < |index| && IsLink(index[k]) ==> k in r
  {
    FindAll(index, IsLink)
  }

  /** The codes of the given links, in the given order. */
  function LinkCodes(index: Doc, links: seq<nat>): (r: seq<string>)
    requires forall t :: 0 <= t < |links| ==> links[t] < |index| && index[links[t]].ownString.Some?
    ensures |r| == |links|
    ensures forall t :: 0 <= t < |links| ==> r[t] == LinkCode(index[links[t]])
  {
    seq(|links|, t requires 0 <= t < |links| => LinkCode(index[links[t]]))
  }

  /** What a successful node loop leaves behind, for the catalog `c` built
      from page `index`: every link has a string; `c` is a valid dict whose
      keys are the link codes in order of first appearance; every record has
      empty `deps`; and the record stored under a code is the one its last
      link resolves to. */
  ghost predicate NodePassFacts(base: string, index: Doc, pages: map<string, Doc>, c: Catalog)
  {
    && Valid(c)
    && (forall k :: 0 <= k < |index| && IsLink(index[k]) ==> index[k].ownString.Some?)
    && FirstSeenOrder(c.order, LinkCodes(index, Links(index)))
    && (forall k :: k in c.entries ==> c.entries[k].deps == [])
    && forall i ::
         && 0 <= i < |index| && IsLink(index[i])
         && (forall j :: i < j < |index| && IsLink(index[j]) ==> LinkCode(index[j]) != LinkCode(index[i]))
         ==> && LinkCode(index[i]) in c.entries
             && ResolveLink(base, index, pages, i) == Ok(Entry(LinkCode(index[i]), c.entries[LinkCode(index[i])]))
  }

  /** The `for tag in discipline_tags` loop: every link resolved, in document order, and
      stored by code. It fails with the error of the first link that fails;
      on success `NodePassFacts` holds of the result. */
  function NodePass(base: string, index: Doc, pages: map<string, Doc>): (r: Result<Catalog, BuildError>)
    ensures r.Ok? <==> forall t :: 0 <= t < |Links(index)| ==> ResolveLink(base, index, pages, Links(index)[t]).Ok?
    ensures r.Err? ==> exists t :: && 0 <= t < |Links(index)|
                                   && ResolveLink(base, index, pages, Links(index)[t]) == Err(r.error)
                                   && forall u :: 0 <= u < t ==> ResolveLink(base, index, pages, Links(index)[u]).Ok?
    ensures r.Ok? ==> NodePassFacts(base, index, pages, r.value)
  {
    var links := Links(index);
    var es :- MapResults(links, (i: nat) requires i < |index| => ResolveLink(base, index, pages, i));
    NodePassResult(base, index, pages, links, es);
    Ok(FromEntries(es))
  }

  /** Once every link has resolved, the dict built from the entries has the
      properties of a successful node loop. */
  lemma NodePassResult(base: string, index: Doc, pages: map<string, Doc>, links: seq<nat>, es: seq<Entry>)
    requires ResolvedLinks(base, index, pages, links, es)
    ensures NodePassFacts(base, index, pages, FromEntries(es))
  {
    ResolvedLinksFacts(base, index, pages, links, es);
    FromEntriesNoDeps(es);
    ResolvedLinksLastWins(base, index, pages, links, es);
    FromEntriesOrder(es);
  }

  /** The entries `es` are what the links of the page resolved to. */
  ghost predicate ResolvedLinks(base: string, index: Doc, pages: map<string, Doc>, links: seq<nat>, es: seq<Entry>)
  {
    && links == Links(index)
    && |es| == |links|
    && forall t :: 0 <= t < |links| ==> ResolveLink(base, index, pages, links[t]) == Ok(es[t])
  }

  /** After a successful node pass every link had a string, and the entries
      carry the links' codes and empty `deps`. */
  lemma ResolvedLinksFacts(base: string, index: Doc, pages: map<string, Doc>, links: seq<nat>, es: seq<Entry>)
    requires ResolvedLinks(base, index, pages, links, es)
    ensures forall k :: 0 <= k < |index| && IsLink(index[k]) ==> index[k].ownString.Some?
    ensures forall t :: 0 <= t < |links| ==> index[links[t]].ownString.Some?
    ensures Codes(es) == LinkCodes(index, links)
    ensures forall t :: 0 <= t < |es| ==> es[t].record.deps == []
  {
    forall k | 0 <= k < |index| && IsLink(index[k])
      ensures index[k].ownString.Some?
    {
      var t :| 0 <= t < |links| && links[t] == k;
      assert ResolveLink(base, index, pages, links[t]).Ok?;
    }
  }

  /** Storing records that have no dependencies leaves every entry without any. */
  lemma {:induction false} FromEntriesNoDeps(es: seq<Entry>)
    requires forall t :: 0 <= t < |es| ==> es[t].record.deps == []
    ensures forall k :: k in FromEntries(es).entries ==> FromEntries(es).entries[k].deps == []
  {
    if es != [] {
      FromEntriesNoDeps(es[..|es| - 1]);
    }
  }

  /** The link whose code does not recur among later links is the last entry
      with that code. */
  lemma LastLinkIsLastEntry(index: Doc, links: seq<nat>, es: seq<Entry>, t: nat)
    requires links == Links(index)
    requires forall u :: 0 <= u < |links| ==> index[links[u]].ownString.Some?
    requires Codes(es) == LinkCodes(index, links)
    requires t < |links|
    requires forall j :: links[t] < j < |index| && IsLink(index[j]) && index[j].ownString.Some?
                         ==> LinkCode(index[j]) != LinkCode(index[links[t]])
    ensures LastWithCode(es, t)
  {
    forall u | t < u < |es|
      ensures es[u].code != es[t].code
    {
      LinksIncrease(index, links, t, u);
      assert es[u].code == Codes(es)[u] == LinkCode(index[links[u]]);
      assert es[t].code == Codes(es)[t];
    }
  }

  /** The last link with a given code provides the record stored under it. */
  lemma ResolvedLinksLastWins(base: string, index: Doc, pages: map<string, Doc>, links: seq<nat>, es: seq<Entry>)
    requires ResolvedLinks(base, index, pages, links, es)
    ensures forall k :: 0 <= k < |index| && IsLink(index[k]) ==> index[k].ownString.Some?
    ensures forall i ::
              && 0 <= i < |index| && IsLink(index[i])
              && (forall j :: i < j < |index| && IsLink(index[j]) ==> LinkCode(index[j]) != LinkCode(index[i]))
              ==> && LinkCode(index[i]) in FromEntries(es).entries
                  && ResolveLink(base, index, pages, i) == Ok(Entry(LinkCode(index[i]), FromEntries(es).entries[LinkCode(index[i])]))
  {
    ResolvedLinksFacts(base, index, pages, links, es);
    forall i |
      && 0 <= i < |index| && IsLink(index[i])
      && (forall j :: i < j < |index| && IsLink(index[j]) ==> LinkCode(index[j]) != LinkCode(index[i]))
      ensures && LinkCode(index[i]) in FromEntries(es).entries
              && ResolveLink(base, index, pages, i) == Ok(Entry(LinkCode(index[i]), FromEntries(es).entries[LinkCode(index[i])]))
    {
      var t :| 0 <= t < |links| && links[t] == i;
      LastLinkIsLastEntry(index, links, es, t);
      LastEntryStored(es, t);
      assert ResolveLink(base, index, pages, links[t]) == Ok(es[t]);
      assert es[t].code == Codes(es)[t];
    }
  }

  lemma LastEntryStored(es: seq<Entry>, t: nat)
    requires LastWithCode(es, t)
    ensures es[t].code in FromEntries(es).entries && FromEntries(es).entries[es[t].code] == es[t].record
  {
    FromEntriesLastWins(es);
  }

  lemma LinksIncrease(index: Doc, links: seq<nat>, t: nat, u: nat)
    requires links == Links(index)
    requires t < u < |links|
    ensures links[t] < links[u]
  {
  }

  /** A prerequisite edge: `dep` is appended to the `deps` of `owner`. */
  datatype Edge = Edge(owner: string, dep: string)

  /** The prerequisite annotations of the index page, in document order. */
  function Annotations(index: Doc): (r: seq<nat>)
    ensures forall t :: 0 <= t < |r| ==> r[t] < |index| && IsAnnotation(index[r[t]])
    ensures forall t, u :: 0 <= t < u < |r| ==> r[t] < r[u]
    ensures forall k :: 0 <= k < |index| && IsAnnotation(index[k]) ==> k in r
  {
    FindAll(index, IsAnnotation)
  }

  /** One iteration of the edge loop for the annotation at index `a`: the
      owner is the nearest link before it, the owner's code the tail of that
      link's string, the prerequisite the head of the annotation's stripped
      string. Python fails, in this order, on no earlier link, on a link or an
      annotation without a string, and on an owner code that is not a key;
      the prerequisite code itself is never looked up. */
  function EdgeOf(index: Doc, keys: set<string>, a: nat): (r: Result<Edge, BuildError>)
    requires a < |index|
    ensures r.Ok? ==> r.value.owner in keys
    ensures r == Err(NoOwningLink(a)) <==> NoneBefore(index, IsLink, a)
    ensures forall j :: LastBefore(index, IsLink, a, j) ==>
              r == if index[j].ownString.None? then Err(MissingLinkString(j))
                   else if index[a].ownString.None? then Err(MissingAnnotationString(a))
                   else if LinkCode(index[j]) !in keys then Err(UnknownOwner(LinkCode(index[j])))
                   else Ok(Edge(LinkCode(index[j]), DepCodeOf(index[a].ownString.value)))
  {
    match FindPrevious(index, IsLink, a)
    case None => Err(NoOwningLink(a))
    case Some(j) =>
      assert forall j' :: LastBefore(index, IsLink, a, j') ==> j' == j;
      if index[j].ownString.None? then Err(MissingLinkString(j))
      else
        var owner := LinkCode(index[j]);
        if index[a].ownString.None? then Err(MissingAnnotationString(a))
        else
          var dep := DepCodeOf(index[a].ownString.value);
          if owner !in keys then Err(UnknownOwner(owner))
          else Ok(Edge(owner, dep))
  }

  /** The edges of all annotations, in document order, or the first failure. */
  function AnnotationEdges(index: Doc, keys: set<string>): (r: Result<seq<Edge>, BuildError>)
    ensures r.Ok? <==> forall t :: 0 <= t < |Annotations(index)| ==> EdgeOf(index, keys, Annotations(index)[t]).Ok?
    ensures r.Ok? ==> && |r.value| == |Annotations(index)|
                      && forall t :: 0 <= t < |r.value| ==> EdgeOf(index, keys, Annotations(index)[t]) == Ok(r.value[t])
    ensures r.Err? ==> exists t :: && 0 <= t < |Annotations(index)|
                                   && EdgeOf(index, keys, Annotations(index)[t]) == Err(r.error)
                                   && forall u :: 0 <= u < t ==> EdgeOf(index, keys, Annotations(index)[u]).Ok?
    ensures r.Ok? ==> forall t :: 0 <= t < |r.value| ==> r.value[t].owner in keys
  {
    MapResults(Annotations(index), (a: nat) requires a < |index| => EdgeOf(index, keys, a))
  }

  /** The prerequisites `edges` give to `k`, in edge order. */
  function DepsFor(edges: seq<Edge>, k: string): (r: seq<string>)
    ensures |r| <= |edges|
    ensures forall x :: x in r <==> exists t :: 0 <= t < |edges| && edges[t] == Edge(k, x)
  {
    if edges == [] then []
    else
      var e := edges[|edges| - 1];
      DepsFor(edges[..|edges| - 1], k) + (if e.owner == k then [e.dep] else [])
  }

  lemma DepsForLast(edges: seq<Edge>, k: string)
    requires edges != []
    ensures edges[|edges| - 1].owner == k ==>
              DepsFor(edges, k) == DepsFor(edges[..|edges| - 1], k) + [edges[|edges| - 1].dep]
    ensures edges[|edges| - 1].owner != k ==> DepsFor(edges, k) == DepsFor(edges[..|edges| - 1], k)
  {
    if edges[|edges| - 1].owner != k {
      assert DepsFor(edges, k) == DepsFor(edges[..|edges| - 1], k) + [];
    }
  }

  /** `assets_config[e.owner]["deps"].append(e.dep)`. */
  function AppendDep(c: Catalog, e: Edge): (r: Catalog)
    requires e.owner in c.entries
    ensures r.order == c.order && r.entries.Keys == c.entries.Keys
    ensures r.entries[e.owner].deps == c.entries[e.owner].deps + [e.dep]
    ensures r.entries[e.owner].(deps := []) == c.entries[e.owner].(deps := [])
    ensures forall k :: k in c.entries && k != e.owner ==> r.entries[k] == c.entries[k]
  {
    var rec := c.entries[e.owner];
    Catalog(c.order, c.entries[e.owner := rec.(deps := rec.deps + [e.dep])])
  }

  /** The edge loop's appends, in order. The keys and their order stay, every
      field but `deps` stays, and each record's `deps` grows by exactly the
      prerequisites the edges give it, in edge order. */
  function ApplyEdges(c: Catalog, edges: seq<Edge>): (r: Catalog)
    requires forall t :: 0 <= t < |edges| ==> edges[t].owner in c.entries
    ensures r.order == c.order
    ensures r.entries.Keys == c.entries.Keys
    ensures forall k :: k in c.entries ==>
              r.entries[k] == c.entries[k].(deps := c.entries[k].deps + DepsFor(edges, k))
  {
    if edges == [] then
      assert forall k :: k in c.entries ==> c.entries[k].deps + DepsFor(edges, k) == c.entries[k].deps;
      c
    else
      var prev := ApplyEdges(c, edges[..|edges| - 1]);
      AppendDepExtends(c, edges, prev);
      AppendDep(prev, edges[|edges| - 1])
  }

  /** `r` is `c` with each `deps` extended by what `edges` give it. */
  ghost predicate Extends(c: Catalog, r: Catalog, edges: seq<Edge>)
  {
    && r.order == c.order
    && r.entries.Keys == c.entries.Keys
    && forall k :: k in c.entries ==>
         r.entries[k] == c.entries[k].(deps := c.entries[k].deps + DepsFor(edges, k))
  }

  /** One more append extends the dict by one more edge. */
  lemma AppendDepExtends(c: Catalog, edges: seq<Edge>, prev: Catalog)
    requires edges != [] && edges[|edges| - 1].owner in c.entries
    requires Extends(c, prev, edges[..|edges| - 1])
    ensures Extends(c, AppendDep(prev, edges[|edges| - 1]), edges)
  {
    var n := |edges| - 1;
    var e := edges[n];
    var r := AppendDep(prev, e);
    forall k | k in c.entries
      ensures r.entries[k] == c.entries[k].(deps := c.entries[k].deps + DepsFor(edges, k))
    {
      var before := c.entries[k].deps + DepsFor(edges[..n], k);
      DepsForLast(edges, k);
      if k == e.owner {
        assert before + [e.dep] == c.entries[k].deps + DepsFor(edges, k);
      }
    }
  }

  /** The `for tag in dependency_tags` loop over the dict `c`. */
  function EdgePass(index: Doc, c: Catalog): (r: Result<Catalog, BuildError>)
    ensures r.Ok? <==> AnnotationEdges(index, c.entries.Keys).Ok?
    ensures r.Err? ==> r.error == AnnotationEdges(index, c.entries.Keys).error
    ensures r.Ok? ==> && r.value.order == c.order
                      && r.value.entries.Keys == c.entries.Keys
                      && forall k :: k in c.entries ==>
                           r.value.entries[k] == c.entries[k].(deps := c.entries[k].deps
                                                   + DepsFor(AnnotationEdges(index, c.entries.Keys).value, k))
  {
    var edges :- AnnotationEdges(index, c.entries.Keys);
    Ok(ApplyEdges(c, edges))
  }

  /** What `main` produces from the index page `index`: it succeeds exactly
      when the node pass and then the edge pass over the node pass's dict
      succeed, and otherwise fails with the error of the pass that failed. On
      success the keys, their order and every field but `deps` are the node
      pass's, and each `deps` lists, in document order, the prerequisites of
      the annotations that the edge pass attributes to that key. */
  ghost predicate BuildOutcome(base: string, index: Doc, pages: map<string, Doc>, r: Result<Catalog, BuildError>)
  {
    var n := NodePass(base, index, pages);
    && (n.Err? ==> r == Err(n.error))
    && (n.Ok? ==> && (r.Ok? <==> EdgePass(index, n.value).Ok?)
                  && (r.Err? ==> r.error == EdgePass(index, n.value).error)
                  && (r.Ok? ==> && r.value.order == n.value.order
                                && r.value.entries.Keys == n.value.entries.Keys
                                && forall k :: k in n.value.entries ==>
                                     r.value.entries[k] == n.value.entries[k].(deps :=
                                       DepsFor(AnnotationEdges(index, n.value.entries.Keys).value, k))))
  }

  /** `main` without its I/O: fetch the index page, run the node pass, then
      the edge pass over the same page. */
  function Build(base: string, courseRelativeUrl: string, pages: map<string, Doc>): (r: Result<Catalog, BuildError>)
    ensures base + courseRelativeUrl !in pages ==> r == Err(FetchFailed(base + courseRelativeUrl))
    ensures r.Ok? ==> && base + courseRelativeUrl in pages
                      && Valid(r.value)
                      && (forall k :: 0 <= k < |pages[base + courseRelativeUrl]|
                                      && IsLink(pages[base + courseRelativeUrl][k])
                                      ==> pages[base + courseRelativeUrl][k].ownString.Some?)
                      && FirstSeenOrder(r.value.order, LinkCodes(pages[base + courseRelativeUrl],
                                                                 Links(pages[base + courseRelativeUrl])))
    ensures base + courseRelativeUrl in pages ==> BuildOutcome(base, pages[base + courseRelativeUrl], pages, r)
  {
    var url := base + courseRelativeUrl;
    if url !in pages then Err(FetchFailed(url))
    else
      var index := pages[url];
      var c :- NodePass(base, index, pages);
      EdgePass(index, c)
  }

  /** Both passes use the same link predicate, so once the node pass has
      succeeded every annotation's owner has a string and is a key: the edge
      pass can then only fail for an annotation with no link before it or with
      no string of its own. */
  lemma OwnersAreKeys(base: string, index: Doc, pages: map<string, Doc>, c: Catalog)
    requires NodePass(base, index, pages) == Ok(c)
    ensures EdgePass(index, c).Err? ==>
              EdgePass(index, c).error.NoOwningLink? || EdgePass(index, c).error.MissingAnnotationString?
  {
    var keys := c.entries.Keys;
    var anns := Annotations(index);
    if EdgePass(index, c).Err? {
      var e := EdgePass(index, c).error;
      var t :| 0 <= t < |anns| && EdgeOf(index, keys, anns[t]) == Err(e);
      LinkCodesAreKeys(base, index, pages, c);
      EdgeOfAfterNodePass(index, c, anns[t]);
    }
  }

  /** Every link of a page whose node pass succeeded has its code among the keys. */
  lemma LinkCodesAreKeys(base: string, index: Doc, pages: map<string, Doc>, c: Catalog)
    requires NodePass(base, index, pages) == Ok(c)
    ensures forall j :: 0 <= j < |index| && IsLink(index[j]) ==>
              index[j].ownString.Some? && LinkCode(index[j]) in c.entries
  {
    var links := Links(index);
    var codes := LinkCodes(index, links);
    FirstSeenKeys(c, codes);
    forall j | 0 <= j < |index| && IsLink(index[j])
      ensures index[j].ownString.Some? && LinkCode(index[j]) in c.entries
    {
      var u :| 0 <= u < |links| && links[u] == j;
      assert codes[u] == LinkCode(index[j]);
    }
  }

  /** A valid dict whose keys are the given codes in first-seen order has
      every one of them as a key. */
  lemma FirstSeenKeys(c: Catalog, codes: seq<string>)
    requires Valid(c) && FirstSeenOrder(c.order, codes)
    ensures forall t :: 0 <= t < |codes| ==> codes[t] in c.entries
  {
  }

  lemma EdgeOfAfterNodePass(index: Doc, c: Catalog, a: nat)
    requires a < |index|
    requires forall j :: 0 <= j < |index| && IsLink(index[j]) ==>
               index[j].ownString.Some? && LinkCode(index[j]) in c.entries
    ensures EdgeOf(index, c.entries.Keys, a).Err? ==>
              EdgeOf(index, c.entries.Keys, a).error.NoOwningLink?
              || EdgeOf(index, c.entries.Keys, a).error.MissingAnnotationString?
  {
    match FindPrevious(index, IsLink, a)
    case None =>
    case Some(j) =>
      assert LastBefore(index, IsLink, a, j);
  }

  /** How many times `k` occurs in `order`. */
  function Occurrences(order: seq<string>, k: string): nat
  {
    if order == [] then 0 else (if order[0] == k then 1 else 0) + Occurrences(order[1..], k)
  }

  lemma {:induction false} OccursOnce(order: seq<string>, k: string)
    requires forall p, q :: 0 <= p < q < |order| ==> order[p] != order[q]
    requires k in order
    ensures Occurrences(order, k) == 1
  {
    if order[0] == k {
      NotOccurring(order[1..], k);
    } else {
      OccursOnce(order[1..], k);
    }
  }

  lemma {:induction false} NotOccurring(order: seq<string>, k: string)
    requires k !in order
    ensures Occurrences(order, k) == 0
  {
    if order != [] {
      NotOccurring(order[1..], k);
    }
  }

  /** The number of prerequisites `edges` give to the keys in `order`. */
  function CountFor(edges: seq<Edge>, order: seq<string>): nat
  {
    if order == [] then 0 else |DepsFor(edges, order[0])| + CountFor(edges, order[1..])
  }

  lemma {:induction false} CountForStep(edges: seq<Edge>, e: Edge, order: seq<string>)
    ensures CountFor(edges + [e], order) == CountFor(edges, order) + Occurrences(order, e.owner)
  {
    assert (edges + [e])[..|edges|] == edges;
    if order != [] {
      CountForStep(edges, e, order[1..]);
    }
  }

  /** Edges whose owners all appear, once each, in `order` give out exactly
      one prerequisite per edge. */
  lemma {:induction false} EveryEdgeCountedOnce(edges: seq<Edge>, order: seq<string>)
    requires forall p, q :: 0 <= p < q < |order| ==> order[p] != order[q]
    requires forall t :: 0 <= t < |edges| ==> edges[t].owner in order
    ensures CountFor(edges, order) == |edges|
  {
    if edges == [] {
      CountForNone(order);
    } else {
      var n := |edges| - 1;
      EveryEdgeCountedOnce(edges[..n], order);
      assert edges == edges[..n] + [edges[n]];
      CountForStep(edges[..n], edges[n], order);
      OccursOnce(order, edges[n].owner);
    }
  }

  lemma {:induction false} CountForNone(order: seq<string>)
    ensures CountFor([], order) == 0
  {
    if order != [] {
      CountForNone(order[1..]);
    }
  }

  /** The total length of the `deps` lists of the keys in `order`. */
  function TotalDeps(entries: map<string, Record>, order: seq<string>): nat
    requires forall t :: 0 <= t < |order| ==> order[t] in entries
  {
    if order == [] then 0 else |entries[order[0]].deps| + TotalDeps(entries, order[1..])
  }

  lemma {:induction false} ExtendedTotal(before: map<string, Record>, after: map<string, Record>,
                                         edges: seq<Edge>, order: seq<string>)
    requires forall t :: 0 <= t < |order| ==> order[t] in before && order[t] in after
    requires forall k :: k in before && k in after ==> after[k].deps == before[k].deps + DepsFor(edges, k)
    ensures TotalDeps(after, order) == TotalDeps(before, order) + CountFor(edges, order)
  {
    if order != [] {
      ExtendedTotal(before, after, edges, order[1..]);
    }
  }

  /** Each annotation of the index page appends exactly one code: after both
      passes the `deps` lists hold as many codes in all as there are
      annotations. */
  lemma OneCodePerAnnotation(base: string, index: Doc, pages: map<string, Doc>, c: Catalog, c': Catalog)
    requires NodePass(base, index, pages) == Ok(c)
    requires EdgePass(index, c) == Ok(c')
    ensures forall t :: 0 <= t < |c'.order| ==> c'.order[t] in c'.entries
    ensures TotalDeps(c'.entries, c'.order) == |Annotations(index)|
  {
    var edges := AnnotationEdges(index, c.entries.Keys).value;
    EdgesTotal(c, c', edges);
  }

  lemma EdgesTotal(c: Catalog, c': Catalog, edges: seq<Edge>)
    requires Valid(c)
    requires forall k :: k in c.entries ==> c.entries[k].deps == []
    requires c'.order == c.order && c'.entries.Keys == c.entries.Keys
    requires forall k :: k in c.entries ==> c'.entries[k].deps == c.entries[k].deps + DepsFor(edges, k)
    requires forall t :: 0 <= t < |edges| ==> edges[t].owner in c.entries
    ensures forall t :: 0 <= t < |c'.order| ==> c'.order[t] in c'.entries
    ensures TotalDeps(c'.entries, c'.order) == |edges|
  {
    var order := c.order;
    assert forall t :: 0 <= t < |order| ==>
             order[t] in c.entries && order[t] in c'.entries && c.entries[order[t]].deps == [];
    assert forall t :: 0 <= t < |edges| ==> edges[t].owner in order;
    CountedTotal(c.entries, c'.entries, edges, order);
  }

  /** Keys listed once each in `order`, all without `deps` before, each
      extended by the prerequisites `edges` give it, whose owners all appear
      in `order`: the lists then hold one code per edge. */
  lemma CountedTotal(before: map<string, Record>, after: map<string, Record>, edges: seq<Edge>, order: seq<string>)
    requires forall p, q :: 0 <= p < q < |order| ==> order[p] != order[q]
    requires forall t :: 0 <= t < |order| ==>
               order[t] in before && order[t] in after && before[order[t]].deps == []
    requires forall k :: k in before && k in after ==> after[k].deps == before[k].deps + DepsFor(edges, k)
    requires forall t :: 0 <= t < |edges| ==> edges[t].owner in order
    ensures TotalDeps(after, order) == |edges|
  {
    ExtendedTotal(before, after, edges, order);
    EveryEdgeCountedOnce(edges, order);
    NoDepsTotal(before, order);
  }

  lemma {:induction false} NoDepsTotal(entries: map<string, Record>, order: seq<string>)
    requires forall t :: 0 <= t < |order| ==> order[t] in entries && entries[order[t]].deps == []
    ensures TotalDeps(entries, order) == 0
  {
    if order != [] {
      NoDepsTotal(entries, order[1..]);
    }
  }
}
