/** A parsed HTML page, flattened: its tags in document (pre-order) order.
    BeautifulSoup's searches become index searches over this sequence. A tag's
    descendants follow it and its ancestors precede it, so `find_next` (which
    walks every later element, descendants included) and `find_previous`
    (which walks every earlier element, ancestors included) are plain forward
    and backward scans. */
module Document {
  import opened Wrappers
  import opened PyStr
  import opened Seqs

  /** One tag. `ownString` is bs4's `.string` (absent when the tag has not
      exactly one string below it); `strings` are the text fragments below the
      tag, in order, that `get_text` joins. */
  datatype Node = Node(
    name: string,
    classes: set<string>,
    attrs: map<string, string>,
    ownString: Option<string>,
    strings: seq<string>)

  type Doc = seq<Node>

  /** `j` is the first index at or after `from` whose tag satisfies `p`. */
  ghost predicate FirstAt(doc: Doc, p: Node -> bool, from: int, j: int)
  {
    && 0 <= from <= j < |doc|
    && p(doc[j])
    && forall k :: from <= k < j ==> !p(doc[k])
  }

  /** No tag at or after `from` satisfies `p`. */
  ghost predicate NoneFrom(doc: Doc, p: Node -> bool, from: int)
  {
    forall k :: from <= k < |doc| && 0 <= k ==> !p(doc[k])
  }

  /** `j` is the last index before `i` whose tag satisfies `p`. */
  ghost predicate LastBefore(doc: Doc, p: Node -> bool, i: int, j: int)
  {
    && 0 <= j < i <= |doc|
    && p(doc[j])
    && forall k :: j < k < i ==> !p(doc[k])
  }

  /** No tag before `i` satisfies `p`. */
  ghost predicate NoneBefore(doc: Doc, p: Node -> bool, i: int)
  {
    forall k :: 0 <= k < i && k < |doc| ==> !p(doc[k])
  }

  /** There is at most one first match, and none when nothing matches. */
  lemma FirstAtUnique(doc: Doc, p: Node -> bool, from: int, i: int)
    requires FirstAt(doc, p, from, i)
    ensures forall j :: FirstAt(doc, p, from, j) ==> j == i
    ensures !NoneFrom(doc, p, from)
  {
  }

  /** The first match at or after `from`. */
  function FindFrom(doc: Doc, p: Node -> bool, from: nat): (r: Option<nat>)
    requires from <= |doc|
    ensures r.Some? ==> FirstAt(doc, p, from, r.value)
    ensures r.None? <==> NoneFrom(doc, p, from)
    decreases |doc| - from
  {
    if from == |doc| then None
    else if p(doc[from]) then Some(from)
    else FindFrom(doc, p, from + 1)
  }

  /** `soup.find(p)`: the first matching tag of the page. */
  function Find(doc: Doc, p: Node -> bool): (r: Option<nat>)
    ensures r.Some? ==> FirstAt(doc, p, 0, r.value)
    ensures r.None? <==> NoneFrom(doc, p, 0)
  {
    FindFrom(doc, p, 0)
  }

  /** `tag.find_next(p)`: the first matching tag after tag `i`. */
  function FindNext(doc: Doc, p: Node -> bool, i: nat): (r: Option<nat>)
    requires i < |doc|
    ensures r.Some? ==> FirstAt(doc, p, i + 1, r.value)
    ensures r.None? <==> NoneFrom(doc, p, i + 1)
  {
    FindFrom(doc, p, i + 1)
  }

  /** `tag.find_previous(p)`: the nearest matching tag before tag `i`. */
  function FindPrevious(doc: Doc, p: Node -> bool, i: nat): (r: Option<nat>)
    requires i <= |doc|
    ensures r.Some? ==> LastBefore(doc, p, i, r.value)
    ensures r.None? <==> NoneBefore(doc, p, i)
  {
    if i == 0 then None
    else if p(doc[i - 1]) then Some(i - 1)
    else FindPrevious(doc, p, i - 1)
  }

  /** The matches at or after `from`, in document order. */
  function FindAllFrom(doc: Doc, p: Node -> bool, from: nat): (r: seq<nat>)
    requires from <= |doc|
    ensures forall t :: 0 <= t < |r| ==> from <= r[t] < |doc| && p(doc[r[t]])
    ensures forall t, u :: 0 <= t < u < |r| ==> r[t] < r[u]
    ensures forall k :: from <= k < |doc| && p(doc[k]) ==> k in r
    decreases |doc| - from
  {
    if from == |doc| then []
    else if p(doc[from]) then [from] + FindAllFrom(doc, p, from + 1)
    else FindAllFrom(doc, p, from + 1)
  }

  /** `soup.find_all(p)`: every matching tag, in document order. */
  function FindAll(doc: Doc, p: Node -> bool): (r: seq<nat>)
    ensures forall t :: 0 <= t < |r| ==> r[t] < |doc| && p(doc[r[t]])
    ensures forall t, u :: 0 <= t < u < |r| ==> r[t] < r[u]
    ensures forall k :: 0 <= k < |doc| && p(doc[k]) ==> k in r
  {
    FindAllFrom(doc, p, 0)
  }

  /** The fragments that survive `strip=True`: each stripped, empty ones dropped. */
  function Cleaned(fragments: seq<string>): (r: seq<string>)
    ensures forall t :: 0 <= t < |r| ==> r[t] != [] && Trimmed(r[t])
    ensures r == [] <==> forall t :: 0 <= t < |fragments| ==> AllSpace(fragments[t])
  {
    if fragments == [] then []
    else
      var s := Strip(fragments[0]);
      var rest := Cleaned(fragments[1..]);
      CleanedStep(fragments, s, rest);
      if s == [] then rest else [s] + rest
  }

  /** One step of `Cleaned`: the first fragment, stripped to `s`, is kept
      when non-empty in front of the cleaned remainder `rest`. */
  lemma CleanedStep(fragments: seq<string>, s: string, rest: seq<string>)
    requires |fragments| > 0
    requires s == [] <==> AllSpace(fragments[0])
    requires s != [] ==> Trimmed(s)
    requires forall t :: 0 <= t < |rest| ==> rest[t] != [] && Trimmed(rest[t])
    requires rest == [] <==> forall t :: 0 <= t < |fragments| - 1 ==> AllSpace(fragments[1..][t])
    ensures var r := if s == [] then rest else [s] + rest;
            && (forall t :: 0 <= t < |r| ==> r[t] != [] && Trimmed(r[t]))
            && (r == [] <==> forall t :: 0 <= t < |fragments| ==> AllSpace(fragments[t]))
  {
    assert forall t :: 1 <= t < |fragments| ==> fragments[t] == fragments[1..][t - 1];
  }

  /** `Cleaned` works fragment by fragment: it distributes over
      concatenation (and `CleanedSingle` says what one fragment gives). */
  lemma {:induction false} CleanedAppend(a: seq<string>, b: seq<string>)
    ensures Cleaned(a + b) == Cleaned(a) + Cleaned(b)
  {
    if a == [] {
      assert a + b == b;
    } else {
      var head := CleanedHead(a[0]);
      TailOfAppend(a, b);
      CleanedCons(a + b);
      CleanedCons(a);
      CleanedAppend(a[1..], b);
      ConcatAssoc(head, Cleaned(a[1..]), Cleaned(b));
    }
  }

  /** What one fragment contributes to `Cleaned`. */
  function CleanedHead(x: string): seq<string>
  {
    if Strip(x) == [] then [] else [Strip(x)]
  }

  lemma CleanedCons(fragments: seq<string>)
    requires fragments != []
    ensures Cleaned(fragments) == CleanedHead(fragments[0]) + Cleaned(fragments[1..])
  {
  }

  /** A single fragment contributes its stripped text when that is non-empty
      and nothing otherwise. */
  lemma CleanedSingle(x: string)
    ensures Cleaned([x]) == if Strip(x) == [] then [] else [Strip(x)]
  {
    assert [x][1..] == [];
  }

  /** `tag.get_text(separator=sep, strip=True)`. Whatever the separator, a
      non-empty result neither starts nor ends with whitespace, and the result
      is empty exactly when every fragment is blank. */
  function GetText(fragments: seq<string>, sep: string): (r: string)
    ensures Trimmed(r)
    ensures r == [] <==> forall t :: 0 <= t < |fragments| ==> AllSpace(fragments[t])
  {
    var parts := Cleaned(fragments);
    JoinTrimmed(parts, sep);
    Join(parts, sep)
  }

  /** An independent statement of `get_text(separator=sep, strip=True)`:
      walking the fragments, each is stripped, a blank one contributes
      nothing, and `sep` stands between two consecutive non-blank ones. */
  function StrippedJoin(fragments: seq<string>, sep: string): string
  {
    if fragments == [] then []
    else
      var s := Strip(fragments[0]);
      var rest := StrippedJoin(fragments[1..], sep);
      if s == [] then rest else if rest == [] then s else s + sep + rest
  }

  /** `get_text` puts exactly one separator between consecutive non-blank
      stripped fragments, whatever the separator. */
  lemma {:induction false} GetTextIsStrippedJoin(fragments: seq<string>, sep: string)
    ensures GetText(fragments, sep) == StrippedJoin(fragments, sep)
  {
    if fragments != [] {
      var s := Strip(fragments[0]);
      var rest := Cleaned(fragments[1..]);
      GetTextIsStrippedJoin(fragments[1..], sep);
      JoinTrimmed(rest, sep);
      if s != [] && rest != [] {
        assert ([s] + rest)[1..] == rest;
      }
    }
  }

  /** Each fragment stripped, all of them concatenated. */
  function ConcatStripped(fragments: seq<string>): string
  {
    if fragments == [] then [] else Strip(fragments[0]) + ConcatStripped(fragments[1..])
  }

  /** With the empty separator, as the discipline name is read, `get_text`
      is the concatenation of the stripped fragments: blank fragments
      contribute nothing and no separator appears. */
  lemma GetTextNoSeparator(fragments: seq<string>)
    ensures GetText(fragments, "") == ConcatStripped(fragments)
  {
    GetTextIsStrippedJoin(fragments, "");
    StrippedJoinNoSeparator(fragments);
  }

  lemma {:induction false} StrippedJoinNoSeparator(fragments: seq<string>)
    ensures StrippedJoin(fragments, "") == ConcatStripped(fragments)
  {
    if fragments != [] {
      StrippedJoinNoSeparator(fragments[1..]);
      ConcatEmptyMiddle(Strip(fragments[0]), StrippedJoin(fragments[1..], ""));
    }
  }
}
