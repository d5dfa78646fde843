/** The snippet catalog and the search of the store's browser: which snippets are
    listed for a search term, in which order, and which status message is shown when
    none is listed. */
module Catalog {
  import opened Text

  /** One entry of the remote catalog. */
  datatype Snippet = Snippet(
    id: string,
    name: string,
    author: string,
    description: string,
    repo: string,
    folder: string)

  /** The raw-content address of the snippet's folder in its repository, ending in "/":
      the asset and the README are fetched from it, and README images are resolved
      against it. */
  function RawBase(snippet: Snippet): (base: string)
    ensures |base| == |snippet.repo| + |snippet.folder| + 52
    ensures base[..34] == "https://raw.githubusercontent.com/"
    ensures base[|base| - 1] == '/'
  {
    "https://raw.githubusercontent.com/" + snippet.repo + "/refs/heads/main/" + snippet.folder + "/"
  }

  const NoConnectionMessage := "No Internet connection"
  const NoMatchMessage := "No snippets match your search."

  /** `filter` on an array: the elements of `xs` that `keep` accepts, in their order. */
  function FilterBy<T(==)>(xs: seq<T>, keep: T -> bool): (r: seq<T>)
    ensures |r| <= |xs|
    ensures forall x :: x in r ==> x in xs && keep(x)
    ensures forall x :: x in xs && keep(x) ==> x in r
  {
    if xs == [] then []
    else (if keep(xs[0]) then [xs[0]] else []) + FilterBy(xs[1..], keep)
  }

  /** Reference definition of `FilterBy` by positions: the indices at or after `from`
      whose element `keep` accepts, in increasing order. */
  function KeptPositions<T>(xs: seq<T>, keep: T -> bool, from: nat): (ps: seq<nat>)
    requires from <= |xs|
    ensures forall k :: 0 <= k < |ps| ==> from <= ps[k] < |xs|
    ensures forall k, l :: 0 <= k < l < |ps| ==> ps[k] < ps[l]
    ensures forall i :: from <= i < |xs| ==> (i in ps <==> keep(xs[i]))
    decreases |xs| - from
  {
    if from == |xs| then []
    else (if keep(xs[from]) then [from] else []) + KeptPositions(xs, keep, from + 1)
  }

  /** Filtering a suffix reads the suffix at the kept positions, in order. */
  lemma {:induction false} FilterByFollowsPositions<T>(xs: seq<T>, keep: T -> bool, from: nat)
    requires from <= |xs|
    ensures var ps, r := KeptPositions(xs, keep, from), FilterBy(xs[from..], keep);
            |r| == |ps| && forall k :: 0 <= k < |ps| ==> r[k] == xs[ps[k]]
    decreases |xs| - from
  {
    if from < |xs| {
      var ps, rest := KeptPositions(xs, keep, from), KeptPositions(xs, keep, from + 1);
      var r, tail := FilterBy(xs[from..], keep), FilterBy(xs[from + 1..], keep);
      FilterByFollowsPositions(xs, keep, from + 1);
      assert xs[from..][1..] == xs[from + 1..];
      if keep(xs[from]) {
        assert ps == [from] + rest;
        assert r == [xs[from]] + tail;
        forall k | 0 <= k < |ps|
          ensures r[k] == xs[ps[k]]
        {
          if k > 0 {
            assert r[k] == tail[k - 1] && ps[k] == rest[k - 1];
          }
        }
      } else {
        assert ps == rest && r == tail;
      }
    }
  }

  /** Filtering with a test every element passes keeps the sequence as it is. */
  lemma {:induction false} FilterByKeepingAll<T>(xs: seq<T>, keep: T -> bool)
    requires forall x :: x in xs ==> keep(x)
    ensures FilterBy(xs, keep) == xs
  {
    if xs != [] {
      assert xs[0] in xs;
      FilterByKeepingAll(xs[1..], keep);
      assert [xs[0]] + xs[1..] == xs;
    }
  }

  /** Two tests that agree on every element filter alike. */
  lemma {:induction false} FilterByAgreeing<T>(xs: seq<T>, keep: T -> bool, keep': T -> bool)
    requires forall x :: x in xs ==> keep(x) == keep'(x)
    ensures FilterBy(xs, keep) == FilterBy(xs, keep')
  {
    if xs != [] {
      assert xs[0] in xs;
      FilterByAgreeing(xs[1..], keep, keep');
    }
  }

  /** A snippet is listed for `filter` when the filter is empty, or when the lower-cased
      filter occurs in the lower-cased name, author or description. */
  predicate Matches(snippet: Snippet, filter: string): (b: bool)
    ensures filter == [] ==> b
    ensures Lower(filter) == Lower(snippet.name) ==> b
    ensures Lower(filter) == Lower(snippet.author) ==> b
    ensures Lower(filter) == Lower(snippet.description) ==> b
  {
    var needle := Lower(filter);
    || filter == []
    || Contains(Lower(snippet.name), needle)
    || Contains(Lower(snippet.author), needle)
    || Contains(Lower(snippet.description), needle)
  }

  /** The snippets of `catalog` listed for the search term `filter`, in catalog order. */
  function Filter(catalog: seq<Snippet>, filter: string): (r: seq<Snippet>)
    ensures |r| <= |catalog|
    ensures forall x :: x in r ==> x in catalog && Matches(x, filter)
    ensures forall x :: x in catalog && Matches(x, filter) ==> x in r
  {
    FilterBy(catalog, snippet => Matches(snippet, filter))
  }

  /** The search result is the order-preserving subsequence of the catalog made of
      exactly the matching snippets: it is the catalog read at an increasing list of
      positions that holds every position whose snippet matches, and no other. */
  lemma FilterIsMatchingSubsequence(catalog: seq<Snippet>, filter: string)
    ensures var ps := KeptPositions(catalog, snippet => Matches(snippet, filter), 0);
            var r := Filter(catalog, filter);
            && |r| == |ps|
            && (forall k :: 0 <= k < |ps| ==> r[k] == catalog[ps[k]])
            && (forall k, l :: 0 <= k < l < |ps| ==> ps[k] < ps[l])
            && (forall i :: 0 <= i < |catalog| ==> (i in ps <==> Matches(catalog[i], filter)))
  {
    FilterByFollowsPositions(catalog, snippet => Matches(snippet, filter), 0);
    assert catalog[0..] == catalog;
  }

  /** An empty search term lists the whole catalog, in order. */
  lemma EmptyFilterKeepsAll(catalog: seq<Snippet>)
    ensures Filter(catalog, "") == catalog
  {
    FilterByKeepingAll(catalog, snippet => Matches(snippet, ""));
  }

  /** The search ignores the case of the term: two terms that lower-case alike list the
      same snippets. */
  lemma FilterIgnoresCase(catalog: seq<Snippet>, f: string, g: string)
    requires Lower(f) == Lower(g)
    ensures Filter(catalog, f) == Filter(catalog, g)
  {
    assert |f| == |Lower(f)| == |Lower(g)| == |g|;
    FilterByAgreeing(catalog, snippet => Matches(snippet, f), snippet => Matches(snippet, g));
  }

  /** In particular, a term and its lower-cased form list the same snippets. */
  lemma FilterOfLoweredTerm(catalog: seq<Snippet>, f: string)
    ensures Filter(catalog, Lower(f)) == Filter(catalog, f)
  {
    LowerIdempotent(f);
    FilterIgnoresCase(catalog, Lower(f), f);
  }

  /** What the browser shows for a search term: the cards of the listed snippets, or a
      status message when none is listed. */
  datatype View = Cards(items: seq<Snippet>) | Message(text: string)

  function Render(catalog: seq<Snippet>, filter: string): (v: View)
    ensures v.Cards? ==> v.items == Filter(catalog, filter) && v.items != []
    ensures v.Message? <==> (forall x :: x in catalog ==> !Matches(x, filter))
    ensures v == Message(NoConnectionMessage) <==> catalog == []
    ensures v == Message(NoMatchMessage) <==> catalog != [] && forall x :: x in catalog ==> !Matches(x, filter)
  {
    var listed := Filter(catalog, filter);
    if listed == [] then
      Message(if catalog == [] then NoConnectionMessage else NoMatchMessage)
    else
      assert listed[0] in listed;
      Cards(listed)
  }
}
