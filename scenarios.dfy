/**
 * The behaviour the plugin's own test suite describes, on concrete records:
 * a schema sluggifying its `name` field with a limit of 30 characters,
 * updates on and history kept.
 */
module Scenarios {
  import opened Wrappers
  import opened Strings
  import opened SlugGenerator
  import opened SlugOptions
  import opened SlugStore
  import opened UniqueSlug
  import opened SlugHook

  /** The defaults for the field `name`, with the options test/index.js:18-23 sets. */
  function TestOptions(): Options {
    Defaults(Single("name")).(maxLength := 30, update := true, saveHistory := true)
  }

  /** The tag stripper on text without tags. */
  function NoTags(s: string): string {
    s
  }

  /** A record named "w1 w2", for two words of lower-case letters, generates "w1-w2". */
  lemma GeneratedFromName(w1: string, w2: string)
    requires w1 != [] && forall i :: 0 <= i < |w1| ==> 'a' <= w1[i] <= 'z'
    requires w2 != [] && forall i :: 0 <= i < |w2| ==> 'a' <= w2[i] <= 'z'
    ensures Generated(TestOptions(), map["name" := w1 + " " + w2], NoTags) == w1 + "-" + w2
    ensures Candidate(TestOptions(), map["name" := w1 + " " + w2], NoTags) == w1 + "-" + w2
            || |w1 + "-" + w2| > 30
  {
    GenerateTwoWords(w1, " ", w2, Dash);
  }

  /**
   * A record named "w1 w2" that competes with no other record gets the
   * slug "w1-w2", and its history becomes what `NewHistory` gives: the old
   * slug appended when it was non-empty.
   */
  lemma NamedWithoutCompetitors(w1: string, w2: string, cur: DocState, isNew: bool, selfId: nat,
                                store: seq<StoredRecord>, t: int)
    requires w1 != [] && forall i :: 0 <= i < |w1| ==> 'a' <= w1[i] <= 'z'
    requires w2 != [] && forall i :: 0 <= i < |w2| ==> 'a' <= w2[i] <= 'z'
    requires |w1| + |w2| < 29
    requires forall i :: 0 <= i < |store| ==> !IsCompetitor(store[i], selfId, w1 + "-" + w2)
    ensures PrepareSlug(TestOptions(), cur, map["name" := w1 + " " + w2], {"name"}, isNew, selfId, store, None, t, NoTags)
         == Success(DocState(Some(w1 + "-" + w2), NewHistory(TestOptions(), cur, t)))
  {
    var values := map["name" := w1 + " " + w2];
    GeneratedFromName(w1, w2);
    assert Regenerates(TestOptions(), cur, {"name"}, isNew);
    PreparedSlugWithoutCompetitors(TestOptions(), cur, values, {"name"}, isNew, selfId, store, t, NoTags);
  }

  /** test/index.js:50-53: a first "cool stuff" becomes "cool-stuff". */
  lemma CoolStuffFirst()
    ensures PrepareSlug(TestOptions(), DocState(Some(""), []), map["name" := "cool stuff"], {"name"}, true, 1, [], None, 0, NoTags)
         == Success(DocState(Some("cool-stuff"), []))
  {
    assert "cool stuff" == "cool" + " " + "stuff";
    assert "cool-stuff" == "cool" + "-" + "stuff";
    NamedWithoutCompetitors("cool", "stuff", DocState(Some(""), []), true, 1, [], 0);
  }

  /** The resolver's half of test/index.js:53-57: "cool-stuff" against a record holding it gives "cool-stuff-2". */
  lemma CoolStuffResolves()
    ensures EnsureUniqueSlug("cool-stuff", TestOptions(), [StoredRecord(1, Some("cool-stuff"), [])], 2, None)
         == Success(Resolution(false, "cool-stuff-2"))
  {
    var o := TestOptions();
    var c := "cool-stuff";
    var store := [StoredRecord(1, Some(c), [])];
    assert MatchKey(c, 30) == c;
    assert Competitors(store, 2, c) == [c] by {
      assert Competitors(store[1..], 2, c) == [];
    }
    assert IsBumpedMaximum(2, [c], c, c, '-') by {
      assert Count(c, c, c, '-') == 1;
    }
    SuffixCarriesSlot(c, o, [c], 2);
    assert Decimal.Numeral(2) == "2";
    var suffix := Suffix(c, o, [c]);
    assert suffix == "-2";
    ResolvedShape(c, o, [c]);
    assert Prefix(c, 30 - |suffix|) == c;
    assert ResolveAgainst(c, o, [c]) == Resolution(false, c + suffix);
    assert c + suffix == "cool-stuff-2";
    assert EnsureUniqueSlug(c, o, store, 2, None) == Success(ResolveAgainst(c, o, [c]));
  }

  /** test/index.js:53-57: a second "cool stuff" becomes "cool-stuff-2". */
  lemma CoolStuffSecond()
    ensures var store := [StoredRecord(1, Some("cool-stuff"), [])];
      PrepareSlug(TestOptions(), DocState(Some(""), []), map["name" := "cool stuff"], {"name"}, true, 2, store, None, 0, NoTags)
        == Success(DocState(Some("cool-stuff-2"), []))
  {
    var values := map["name" := "cool stuff"];
    assert "cool stuff" == "cool" + " " + "stuff";
    assert "cool-stuff" == "cool" + "-" + "stuff";
    GeneratedFromName("cool", "stuff");
    assert Candidate(TestOptions(), values, NoTags) == "cool-stuff";
    CoolStuffResolves();
  }

  /** test/index.js:61: a record named "a b" gets "a-b". */
  lemma FirstNamedAB(t: int)
    ensures PrepareSlug(TestOptions(), DocState(Some(""), []), map["name" := "a b"], {"name"}, true, 1, [], None, t, NoTags)
         == Success(DocState(Some("a-b"), []))
  {
    assert "a b" == "a" + " " + "b" && "a-b" == "a" + "-" + "b";
    NamedWithoutCompetitors("a", "b", DocState(Some(""), []), true, 1, [], t);
  }

  /**
   * test/index.js:62-64: renamed to "c d", the record gets "c-d" and keeps
   * "a-b" in its history. Its own stored copy does not compete.
   */
  lemma RenamedKeepsHistory(t: int)
    ensures PrepareSlug(TestOptions(), DocState(Some("a-b"), []), map["name" := "c d"], {"name"}, false, 1,
                        [StoredRecord(1, Some("a-b"), [])], None, t, NoTags)
         == Success(DocState(Some("c-d"), [HistoryEntry("a-b", t)]))
  {
    assert "c d" == "c" + " " + "d" && "c-d" == "c" + "-" + "d";
    NamedWithoutCompetitors("c", "d", DocState(Some("a-b"), []), false, 1, [StoredRecord(1, Some("a-b"), [])], t);
    assert NewHistory(TestOptions(), DocState(Some("a-b"), []), t) == [] + [HistoryEntry("a-b", t)];
    assert [] + [HistoryEntry("a-b", t)] == [HistoryEntry("a-b", t)];
  }

  /**
   * test/index.js:65: a second record named "a b" gets "a-b" itself,
   * because only current slugs compete.
   */
  lemma SecondNamedAB(t: int)
    ensures var store := [StoredRecord(1, Some("c-d"), [HistoryEntry("a-b", t)])];
      PrepareSlug(TestOptions(), DocState(Some(""), []), map["name" := "a b"], {"name"}, true, 2, store, None, t, NoTags)
        == Success(DocState(Some("a-b"), []))
  {
    assert "a b" == "a" + " " + "b" && "a-b" == "a" + "-" + "b";
    var store := [StoredRecord(1, Some("c-d"), [HistoryEntry("a-b", t)])];
    assert "c-d"[..3][0] != "a-b"[0];
    NamedWithoutCompetitors("a", "b", DocState(Some(""), []), true, 2, store, t);
  }

  /**
   * test/index.js:66-70: `findBySlug("a-b")` finds the second record, and
   * so does `findBySlugHistory("a-b")`: the current slug wins over the
   * first record's history.
   */
  lemma FoundByCurrentSlug(t: int)
    ensures var store := [StoredRecord(1, Some("c-d"), [HistoryEntry("a-b", t)]), StoredRecord(2, Some("a-b"), [])];
      && FindBySlug(store, "a-b", None) == Success(Some(store[1]))
      && FindBySlugHistory(store, "a-b", None, None) == Success(Some(store[1]))
  {
    var store := [StoredRecord(1, Some("c-d"), [HistoryEntry("a-b", t)]), StoredRecord(2, Some("a-b"), [])];
    assert FirstWhere(store, x => HasSlug(x, "a-b"), 0) == Some(1);
  }

  /**
   * test/index.js:76-90: a record renamed from "e f" to "g h" is found by
   * `findBySlugHistory("e-f")`, with another record "i-j" in the store.
   */
  lemma FoundByHistory(t: int)
    ensures var store := [StoredRecord(1, Some("g-h"), [HistoryEntry("e-f", t)]), StoredRecord(2, Some("i-j"), [])];
      FindBySlugHistory(store, "e-f", None, None) == Success(Some(store[0]))
  {
    var store := [StoredRecord(1, Some("g-h"), [HistoryEntry("e-f", t)]), StoredRecord(2, Some("i-j"), [])];
    assert FirstWhere(store, x => HasSlug(x, "e-f"), 0) == None;
    assert store[0].history[0].slug == "e-f";
  }
}
