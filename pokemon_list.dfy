/** The list screen: fetched pages are flattened into one list of entries,
    narrowed by the search text, copied and sorted by the chosen key; the
    next page is requested at the end of the list only while no search text
    is entered. */
module PokemonList {
  import opened JsText

  datatype Option<T> = None | Some(value: T)

  /** One item of a page's `results`: a name and the URL of its detail record. */
  datatype NamedResource = NamedResource(name: string, url: string)

  /** One fetched page of the paginated list. */
  datatype Page = Page(results: seq<NamedResource>)

  /** What the list shows for one result. */
  datatype Entry = Entry(name: string, id: int)

  /** The two orders the sort button offers. */
  datatype SortKey = Id | Name

  // ---------------------------------------------------------------------------
  // Flatten: data?.pages.flatMap(page => page.results.map(...)) ?? []
  // ---------------------------------------------------------------------------

  /** Number of results over all pages. */
  function TotalResults(pages: seq<Page>): nat {
    if pages == [] then 0 else |pages[0].results| + TotalResults(pages[1..])
  }

  /** `page.results.map(r => ({name: r.name, id: idOf(r.url)}))`; `idOf` stands
      for the id extraction from the URL. */
  function PageEntries(results: seq<NamedResource>, idOf: string -> int): (r: seq<Entry>)
    ensures |r| == |results|
    ensures forall j :: 0 <= j < |r| ==> r[j] == Entry(results[j].name, idOf(results[j].url))
  {
    if results == [] then []
    else [Entry(results[0].name, idOf(results[0].url))] + PageEntries(results[1..], idOf)
  }

  /** All pages' entries, page after page. */
  function Flatten(pages: seq<Page>, idOf: string -> int): (r: seq<Entry>)
    ensures |r| == TotalResults(pages)
  {
    if pages == [] then [] else PageEntries(pages[0].results, idOf) + Flatten(pages[1..], idOf)
  }

  /** `pokemons`: no data yet gives the empty list. */
  function Pokemons(data: Option<seq<Page>>, idOf: string -> int): (r: seq<Entry>)
    ensures data.None? ==> r == []
    ensures data.Some? ==> |r| == TotalResults(data.value)
  {
    match data
    case None => []
    case Some(pages) => Flatten(pages, idOf)
  }

  lemma {:induction false} FlattenAppend(p: seq<Page>, q: seq<Page>, idOf: string -> int)
    ensures Flatten(p + q, idOf) == Flatten(p, idOf) + Flatten(q, idOf)
    ensures TotalResults(p + q) == TotalResults(p) + TotalResults(q)
  {
    if p != [] {
      assert (p + q)[0] == p[0] && (p + q)[1..] == p[1..] + q;
      FlattenAppend(p[1..], q, idOf);
      var head := PageEntries(p[0].results, idOf);
      assert Flatten(p + q, idOf) == head + Flatten(p[1..] + q, idOf);
      assert Flatten(p, idOf) == head + Flatten(p[1..], idOf);
      assert head + (Flatten(p[1..], idOf) + Flatten(q, idOf))
          == (head + Flatten(p[1..], idOf)) + Flatten(q, idOf);
    } else {
      assert p + q == q;
    }
  }

  /** Result `j` of page `i` is the entry right after all results of the
      earlier pages: one entry per result, in page order. */
  lemma {:induction false} FlattenAt(pages: seq<Page>, idOf: string -> int, i: nat, j: nat)
    requires i < |pages| && j < |pages[i].results|
    ensures TotalResults(pages[..i]) + j < |Flatten(pages, idOf)|
    ensures Flatten(pages, idOf)[TotalResults(pages[..i]) + j]
         == Entry(pages[i].results[j].name, idOf(pages[i].results[j].url))
  {
    assert pages == pages[..i] + pages[i..];
    FlattenAppend(pages[..i], pages[i..], idOf);
    assert pages[i..] == [pages[i]] + pages[i + 1..];
  }

  // ---------------------------------------------------------------------------
  // Filter: search ? pokemons.filter(matches) : pokemons
  // ---------------------------------------------------------------------------

  /** The filter's test: the name contains the lower-cased query, or the
      printed id equals the query exactly. Names are not lower-cased. */
  predicate Matches(e: Entry, search: string): (r: bool)
    ensures r <==> Contains(e.name, Lower(search)) || ToDecimal(e.id) == search
    ensures search == "" || search == ToDecimal(e.id) ==> r
    ensures r ==> |search| <= |e.name| || search == ToDecimal(e.id)
  {
    IncludesSpec(e.name, Lower(search));
    Includes(e.name, Lower(search)) || ToDecimal(e.id) == search
  }

  /** Whether an entry survives filtering: everything does while the search
      text is empty. `Matches(e, "")` holds as well, but this predicate
      mirrors the `search ? pokemons.filter(...) : pokemons` branch as written,
      so the empty-search case does not depend on how `includes` treats an
      empty needle. */
  predicate Kept(e: Entry, search: string) {
    search == "" || Matches(e, search)
  }

  /** `pokemons.filter(p => Matches(p, search))`. */
  function KeepMatching(pokemons: seq<Entry>, search: string): (r: seq<Entry>)
    ensures forall i :: 0 <= i < |r| ==> Matches(r[i], search)
    ensures forall e :: multiset(r)[e] == if Matches(e, search) then multiset(pokemons)[e] else 0
  {
    if pokemons == [] then []
    else
      var rest := KeepMatching(pokemons[1..], search);
      assert pokemons == [pokemons[0]] + pokemons[1..];
      if Matches(pokemons[0], search) then [pokemons[0]] + rest else rest
  }

  /** `search ? pokemons.filter(...) : pokemons`: only kept entries, and never
      more copies of an entry than were accumulated. */
  function Filter(pokemons: seq<Entry>, search: string): (r: seq<Entry>)
    ensures forall i :: 0 <= i < |r| ==> Kept(r[i], search)
    ensures multiset(r) <= multiset(pokemons)
  {
    if search == "" then pokemons else KeepMatching(pokemons, search)
  }

  /** An entry is shown as often as it is accumulated when it is kept, and
      not at all otherwise. */
  lemma FilterCount(pokemons: seq<Entry>, search: string, e: Entry)
    ensures multiset(Filter(pokemons, search))[e] == if Kept(e, search) then multiset(pokemons)[e] else 0
  {
  }

  /** Membership form: shown exactly when accumulated and kept. */
  lemma FilterMembership(pokemons: seq<Entry>, search: string, e: Entry)
    ensures e in Filter(pokemons, search) <==> e in pokemons && Kept(e, search)
  {
    FilterCount(pokemons, search, e);
    assert e in Filter(pokemons, search) <==> e in multiset(Filter(pokemons, search));
    assert e in pokemons <==> e in multiset(pokemons);
  }

  /** Without search text nothing is dropped. */
  lemma FilterWithoutSearch(pokemons: seq<Entry>)
    ensures Filter(pokemons, "") == pokemons
  {
  }

  /** Only the query is lower-cased: a window of the name that the filter
      matches never holds an upper-case letter. */
  lemma MatchedNameWindowIsLowerCase(name: string, search: string, i: int)
    requires OccursAt(name, Lower(search), i)
    ensures forall k :: i <= k < i + |search| ==> !IsUpper(name[k])
  {
    var query := Lower(search);
    assert |query| == |search|;
    WindowHasNoUpper(name, query, i);
  }

  lemma WindowHasNoUpper(name: string, w: string, i: int)
    requires OccursAt(name, w, i)
    requires forall k :: 0 <= k < |w| ==> !IsUpper(w[k])
    ensures forall k :: i <= k < i + |w| ==> !IsUpper(name[k])
  {
    forall k | i <= k < i + |w| ensures !IsUpper(name[k]) {
      assert name[k] == name[i..i + |w|][k - i];
    }
  }

  // ---------------------------------------------------------------------------
  // Sort: [...filtered].sort((a, b) => a[key] < b[key] ? -1 : 1)
  // ---------------------------------------------------------------------------

  /** `a[key] < b[key]`: numeric for ids, code-unit lexicographic for names. */
  predicate KeyLess(a: Entry, b: Entry, key: SortKey): (r: bool)
    ensures key == Id && a.id == b.id ==> !r
    ensures key == Name && a.name == b.name ==> !r
  {
    match key
    case Id => a.id < b.id
    case Name => LexLess(a.name, b.name)
  }

  /** The comparator passed to `sort`; it never answers 0. */
  function Compare(a: Entry, b: Entry, key: SortKey): (r: int)
    ensures r == -1 || r == 1
    ensures (key == Id && a.id == b.id) || (key == Name && a.name == b.name) ==> r == 1
  {
    if KeyLess(a, b, key) then -1 else 1
  }

  /** The comparator answers 1 in both directions exactly on ties: never 0,
      and never a consistent answer for a tied pair. */
  lemma CompareOnTies(a: Entry, b: Entry, key: SortKey)
    ensures Compare(a, b, key) == 1 && Compare(b, a, key) == 1
        <==> !KeyLess(a, b, key) && !KeyLess(b, a, key)
  {
  }

  /** Non-decreasing by the key: no later entry is strictly less than an earlier one. */
  predicate Sorted(s: seq<Entry>, key: SortKey) {
    forall i, j :: 0 <= i < j < |s| ==> !KeyLess(s[j], s[i], key)
  }

  /** Strictly increasing by the key: no two entries tie. */
  predicate StrictlySorted(s: seq<Entry>, key: SortKey) {
    forall i, j :: 0 <= i < j < |s| ==> KeyLess(s[i], s[j], key)
  }

  lemma KeyLessAsymmetric(a: Entry, b: Entry, key: SortKey)
    requires KeyLess(a, b, key)
    ensures !KeyLess(b, a, key)
  {
    if key == Name {
      LexAsymmetric(a.name, b.name);
    }
  }

  /** "Not less than" chains: the key order is a total preorder. */
  lemma NotLessTransitive(a: Entry, b: Entry, c: Entry, key: SortKey)
    requires !KeyLess(b, a, key) && !KeyLess(c, b, key)
    ensures !KeyLess(c, a, key)
  {
    if key == Name && LexLess(c.name, a.name) {
      if a.name == b.name {
      } else {
        LexTotal(a.name, b.name);
        LexTransitive(c.name, a.name, b.name);
      }
    }
  }

  /** Tie order is left open: two entries with equal keys may come in either order. */
  lemma TiesMayComeInEitherOrder(a: Entry, b: Entry, key: SortKey)
    requires !KeyLess(a, b, key) && !KeyLess(b, a, key)
    ensures Sorted([a, b], key) && Sorted([b, a], key)
  {
  }

  /** Without ties the outcome is determined: two sorted arrangements of the
      same entries are equal when one of them is strictly sorted. */
  lemma {:induction false} SortedArrangementUnique(s: seq<Entry>, t: seq<Entry>, key: SortKey)
    requires Sorted(s, key) && Sorted(t, key) && StrictlySorted(s, key)
    requires multiset(s) == multiset(t)
    ensures s == t
    decreases |s|
  {
    assert |s| == |multiset(s)| == |multiset(t)| == |t|;
    if |s| > 0 {
      HeadsAgree(s, t, key);
      TailMultiset(s);
      TailMultiset(t);
      SortedArrangementUnique(s[1..], t[1..], key);
    }
  }

  lemma TailMultiset(s: seq<Entry>)
    requires |s| > 0
    ensures multiset(s[1..]) == multiset(s) - multiset{s[0]}
  {
    assert s == [s[0]] + s[1..];
  }

  /** The first entries of two such arrangements tie on the key, and the
      strictly sorted one has no tie with its own first entry elsewhere. */
  lemma HeadsAgree(s: seq<Entry>, t: seq<Entry>, key: SortKey)
    requires Sorted(s, key) && Sorted(t, key) && StrictlySorted(s, key)
    requires multiset(s) == multiset(t) && |s| > 0 && |t| > 0
    ensures s[0] == t[0]
  {
    assert s[0] in multiset(t);
    var m :| 0 <= m < |t| && t[m] == s[0];
    assert t[0] in multiset(s);
    var n :| 0 <= n < |s| && s[n] == t[0];
    LexIrreflexive(s[0].name);
    assert !KeyLess(t[m], t[0], key);
    assert n == 0;
  }

  /** Array.prototype.sort on the copy: rearranges `a` in place until it is
      sorted by the key. The order among ties is not fixed by the source, so
      insertion sort stands for the engine's algorithm. */
  method SortInPlace(a: array<Entry>, key: SortKey)
    modifies a
    ensures Sorted(a[..], key)
    ensures multiset(a[..]) == multiset(old(a[..]))
  {
    var i := 0;
    while i < a.Length
      invariant 0 <= i <= a.Length
      invariant Sorted(a[..i], key)
      invariant multiset(a[..]) == multiset(old(a[..]))
    {
      InsertLast(a, i, key);
      i := i + 1;
    }
    assert a[..a.Length] == a[..];
  }

  /** Moves `a[i]` left past every entry it is strictly less than, so that the
      sorted prefix grows by one. */
  method InsertLast(a: array<Entry>, i: nat, key: SortKey)
    requires i < a.Length && Sorted(a[..i], key)
    modifies a
    ensures Sorted(a[..i + 1], key)
    ensures multiset(a[..]) == multiset(old(a[..]))
    ensures a[i + 1..] == old(a[i + 1..])
  {
    assert forall k, l :: 0 <= k < l < i ==> a[..i][k] == a[k] && a[..i][l] == a[l];
    var j := i;
    while j > 0 && Compare(a[j], a[j - 1], key) < 0
      invariant 0 <= j <= i
      invariant multiset(a[..]) == multiset(old(a[..]))
      invariant a[i + 1..] == old(a[i + 1..])
      invariant forall k, l :: 0 <= k < l <= i && k != j && l != j ==> !KeyLess(a[l], a[k], key)
      invariant forall l :: j < l <= i ==> KeyLess(a[j], a[l], key)
    {
      SwapAdjacent(a, j);
      j := j - 1;
    }
    forall k, l | 0 <= k < l <= i ensures !KeyLess(a[l], a[k], key) {
      if l == j {
        if k < j - 1 {
          NotLessTransitive(a[k], a[j - 1], a[j], key);
        }
      } else if k == j {
        KeyLessAsymmetric(a[j], a[l], key);
      }
    }
  }

  method SwapAdjacent(a: array<Entry>, j: nat)
    requires 0 < j < a.Length
    modifies a
    ensures a[..] == old(a[..])[j - 1 := old(a[j])][j := old(a[j - 1])]
    ensures multiset(a[..]) == multiset(old(a[..]))
  {
    a[j - 1], a[j] := a[j], a[j - 1];
  }

  /** `filteredPokemons`: a fresh array holding the kept entries, sorted by
      the key; the accumulated list is left as it was. */
  method FilteredPokemons(pokemons: array<Entry>, search: string, key: SortKey)
    returns (shown: array<Entry>)
    ensures fresh(shown)
    ensures pokemons[..] == old(pokemons[..])
    ensures Sorted(shown[..], key)
    ensures multiset(shown[..]) == multiset(Filter(pokemons[..], search))
  {
    var kept := Filter(pokemons[..], search);
    shown := new Entry[|kept|](i requires 0 <= i < |kept| => kept[i]);
    assert shown[..] == kept;
    SortInPlace(shown, key);
  }

  /** One render of the list: the pages flattened into `pokemons`, then
      filtered, copied and sorted. Each accumulated entry is shown as often as
      it was fetched when it is kept, and not at all otherwise. */
  method ShownList(data: Option<seq<Page>>, idOf: string -> int, search: string, key: SortKey)
    returns (pokemons: array<Entry>, shown: array<Entry>)
    ensures pokemons[..] == Pokemons(data, idOf)
    ensures Sorted(shown[..], key)
    ensures forall e ::
      multiset(shown[..])[e] == if Kept(e, search) then multiset(Pokemons(data, idOf))[e] else 0
  {
    var all := Pokemons(data, idOf);
    pokemons := new Entry[|all|](i requires 0 <= i < |all| => all[i]);
    assert pokemons[..] == all;
    shown := FilteredPokemons(pokemons, search, key);
    forall e ensures multiset(shown[..])[e] == if Kept(e, search) then multiset(all)[e] else 0 {
      FilterCount(all, search, e);
    }
  }

  // ---------------------------------------------------------------------------
  // onEndReached={search ? undefined : () => fetchNextPage()}
  // ---------------------------------------------------------------------------

  /** The pages after the end of the list is reached, where `next` is what
      the next-page request would deliver (a page with no results when there
      is no further page or the request fails). The handler is installed only while
      the search text is empty; pages are only ever appended. */
  function ReachEnd(pages: seq<Page>, search: string, next: Page): (r: seq<Page>)
    ensures |r| == |pages| + (if search == "" then 1 else 0)
    ensures r[..|pages|] == pages
  {
    if search == "" then pages + [next] else pages
  }

  /** While searching, reaching the end changes nothing; otherwise the list
      grows by exactly the next page's entries at its end. */
  lemma ReachEndEffect(pages: seq<Page>, search: string, next: Page, idOf: string -> int)
    ensures search != "" ==> Flatten(ReachEnd(pages, search, next), idOf) == Flatten(pages, idOf)
    ensures search == "" ==>
      Flatten(ReachEnd(pages, search, next), idOf) == Flatten(pages, idOf) + PageEntries(next.results, idOf)
  {
    if search == "" {
      FlattenAppend(pages, [next], idOf);
      assert [next][1..] == [];
    }
  }

  /** One step of the filter: the head is kept in front exactly when it matches. */
  lemma KeepMatchingStep(pokemons: seq<Entry>, search: string)
    requires |pokemons| > 0
    ensures Matches(pokemons[0], search) ==>
      KeepMatching(pokemons, search) == [pokemons[0]] + KeepMatching(pokemons[1..], search)
    ensures !Matches(pokemons[0], search) ==>
      KeepMatching(pokemons, search) == KeepMatching(pokemons[1..], search)
  {
  }

  /** An entry is not selected when the query is not its printed id and the
      query's first character, lower-cased, does not occur in its name. */
  lemma NoMatch(e: Entry, search: string)
    requires |search| > 0 && ToDecimal(e.id) != search
    requires LowerChar(search[0]) !in e.name
    ensures !Matches(e, search)
  {
    assert forall i :: 0 <= i < |e.name| ==> e.name[i] in e.name;
    FirstCharMissing(e.name, Lower(search));
  }

  /** A query all of whose entries match keeps the list as it is. */
  lemma {:induction false} KeepMatchingAll(pokemons: seq<Entry>, search: string)
    requires forall e :: e in pokemons ==> Matches(e, search)
    ensures KeepMatching(pokemons, search) == pokemons
  {
    if pokemons != [] {
      KeepMatchingAll(pokemons[1..], search);
    }
  }
}
