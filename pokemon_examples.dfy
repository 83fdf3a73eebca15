/** Worked examples of the list screen's filter and sort on concrete
    entries: the three starters, a padded id query, a capitalised name. */
module PokemonExamples {
  import opened JsText
  import opened PokemonList

  function Starters(): seq<Entry> {
    [Entry("bulbasaur", 1), Entry("ivysaur", 2), Entry("venusaur", 3)]
  }

  /** "2" selects ivysaur by its id and nothing by name. */
  lemma FilterByIdExample()
    ensures Filter(Starters(), "2") == [Entry("ivysaur", 2)]
  {
    var s := Starters();
    StartersMatchingTwo();
    KeepMatchingStep(s[2..], "2");
    KeepMatchingStep(s[1..], "2");
    KeepMatchingStep(s, "2");
    assert s[1..][1..] == s[2..] && s[2..][1..] == [];
  }

  lemma StartersMatchingTwo()
    ensures !Matches(Entry("bulbasaur", 1), "2")
    ensures Matches(Entry("ivysaur", 2), "2")
    ensures !Matches(Entry("venusaur", 3), "2")
  {
    TwoSelectsIvysaur();
    TwoMissesBulbasaur();
    TwoMissesVenusaur();
  }

  lemma TwoSelectsIvysaur()
    ensures Matches(Entry("ivysaur", 2), "2")
  {
    SingleDigit(2);
  }

  lemma TwoMissesBulbasaur()
    ensures !Matches(Entry("bulbasaur", 1), "2")
  {
    TwoMisses(Entry("bulbasaur", 1));
  }

  lemma TwoMissesVenusaur()
    ensures !Matches(Entry("venusaur", 3), "2")
  {
    TwoMisses(Entry("venusaur", 3));
  }

  /** Ids below ten print as their one digit. */
  lemma SingleDigit(d: nat)
    requires d < 10
    ensures ToDecimal(d) == [DigitChar(d)]
  {
  }

  /** The query "2" misses a one-digit id other than 2 on a name without '2'. */
  lemma TwoMisses(e: Entry)
    requires 0 <= e.id < 10 && e.id != 2 && '2' !in e.name
    ensures !Matches(e, "2")
  {
    SingleDigit(e.id);
    NoMatch(e, "2");
  }

  /** Every name of the three contains "saur". */
  lemma StartersContainSaur()
    ensures forall e :: e in Starters() ==> Includes(e.name, "saur")
  {
    SaurAt("bulbasaur", 5);
    SaurAt("ivysaur", 3);
    SaurAt("venusaur", 4);
  }

  lemma SaurAt(name: string, i: nat)
    requires i + 4 <= |name|
    requires name[i] == 's' && name[i + 1] == 'a' && name[i + 2] == 'u' && name[i + 3] == 'r'
    ensures Includes(name, "saur")
  {
    assert name[i..i + 4] == "saur";
    IncludedAt(name, "saur", i);
  }

  /** "saur" and "SAUR" select all three by name. */
  lemma FilterByNameExample()
    ensures Filter(Starters(), "saur") == Starters()
    ensures Filter(Starters(), "SAUR") == Starters()
  {
    var saur := "saur";
    StartersContainSaur();
    LowerKeepsLowerCase(saur);
    assert Lower("SAUR") == saur by {
      var r := Lower("SAUR");
      assert r[0] == 's' && r[1] == 'a' && r[2] == 'u' && r[3] == 'r';
    }
    KeepMatchingAll(Starters(), saur);
    KeepMatchingAll(Starters(), "SAUR");
  }

  /** The id test is exact string equality: padded or spaced forms of 2 do
      not select id 2. */
  lemma IdMatchIsExact()
    ensures !Matches(Entry("ivysaur", 2), "02")
    ensures !Matches(Entry("ivysaur", 2), " 2")
    ensures !Matches(Entry("ivysaur", 2), "2 ")
  {
    ZeroPaddedQueryMisses();
    LeadingSpaceQueryMisses();
    TrailingSpaceQueryMisses();
  }

  lemma ZeroPaddedQueryMisses()
    ensures !Matches(Entry("ivysaur", 2), "02")
  {
    IvysaurMissedBy("02");
  }

  lemma LeadingSpaceQueryMisses()
    ensures !Matches(Entry("ivysaur", 2), " 2")
  {
    IvysaurMissedBy(" 2");
  }

  lemma TrailingSpaceQueryMisses()
    ensures !Matches(Entry("ivysaur", 2), "2 ")
  {
    IvysaurMissedBy("2 ");
  }

  /** A two-character query whose first character is not in "ivysaur" misses it. */
  lemma IvysaurMissedBy(search: string)
    requires |search| == 2 && LowerChar(search[0]) !in "ivysaur"
    ensures !Matches(Entry("ivysaur", 2), search)
  {
    SingleDigit(2);
    NoMatch(Entry("ivysaur", 2), search);
  }

  /** A capitalised name is missed by a query for its first letters, whatever
      the query's case, because only the query is lower-cased. */
  lemma CapitalisedNameMissed()
    ensures !Matches(Entry("Pikachu", 25), "PIKA")
    ensures !Matches(Entry("Pikachu", 25), "pika")
  {
    var pika := "pika";
    LowerPika();
    FirstCharMissing("Pikachu", pika);
    assert !IsDigit(pika[0]) && !IsDigit("PIKA"[0]);
  }

  lemma LowerPika()
    ensures Lower("PIKA") == "pika" && Lower("pika") == "pika"
  {
    LowerKeepsLowerCase("pika");
    var r := Lower("PIKA");
    assert r[0] == 'p' && r[1] == 'i' && r[2] == 'k' && r[3] == 'a';
  }

  /** Sorting the three by name can only give bulbasaur, ivysaur, venusaur. */
  lemma NameSortExample(shown: seq<Entry>)
    requires Sorted(shown, Name) && multiset(shown) == multiset(Starters())
    ensures shown == Starters()
  {
    var s := Starters();
    assert KeyLess(s[0], s[1], Name) && KeyLess(s[1], s[2], Name);
    LexTransitive(s[0].name, s[1].name, s[2].name);
    assert StrictlySorted(s, Name);
    assert Sorted(s, Name);
    SortedArrangementUnique(s, shown, Name);
  }

  /** Name order compares code units, so capitalised names come first. */
  lemma NameOrderIsCaseSensitive()
    ensures KeyLess(Entry("Zubat", 41), Entry("abra", 63), Name)
    ensures !KeyLess(Entry("abra", 63), Entry("Zubat", 41), Name)
  {
  }
}
