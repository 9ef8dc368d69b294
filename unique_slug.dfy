/**
 * `ensureUniqueSlug`: the collision resolver.
 *
 * The candidate is compared against the other records whose slug starts with
 * a match key. When there are such competitors, each one is given a count:
 * 1 for an exact copy of the candidate, N+1 when it ends with the key, the
 * separator and the digits of N, and 1 otherwise. The largest count, with 1
 * raised to 2, is appended after the separator. A length limit is honoured
 * by cutting the candidate before the suffix.
 */
module UniqueSlug {
  import opened Wrappers
  import opened SlugGenerator
  import opened Decimal
  import opened SlugOptions
  import opened SlugStore
  import opened Strings

  /** `slugLimited`: a length limit is set and the candidate fills it exactly. */
  predicate IsLimited(candidate: string, maxLength: nat) {
    maxLength > 0 && |candidate| == maxLength
  }

  /**
   * The match key: the candidate, or the candidate without its last two
   * characters when it fills the length limit.
   */
  function MatchKey(candidate: string, maxLength: nat): (key: string)
    ensures StartsWith(candidate, key)
    ensures !IsLimited(candidate, maxLength) ==> key == candidate
    ensures IsLimited(candidate, maxLength) && |candidate| >= 2 ==> |key| == |candidate| - 2
    ensures IsLimited(candidate, maxLength) && |candidate| < 2 ==> key == []
  {
    if IsLimited(candidate, maxLength) then Prefix(candidate, |candidate| - 2) else candidate
  }

  /** The current slugs of all records other than `selfId`. Unset slugs do not match any query. */
  function OtherSlugs(store: seq<StoredRecord>, selfId: nat): set<string> {
    set i | 0 <= i < |store| && store[i].id != selfId && store[i].slug.Some? :: store[i].slug.value
  }

  predicate IsCompetitor(r: StoredRecord, selfId: nat, key: string) {
    r.id != selfId && r.slug.Some? && StartsWith(r.slug.value, key)
  }

  lemma OtherSlugsUncons(store: seq<StoredRecord>, selfId: nat)
    requires store != []
    ensures OtherSlugs(store, selfId)
         == (if store[0].id != selfId && store[0].slug.Some? then {store[0].slug.value} else {})
          + OtherSlugs(store[1..], selfId)
  {
    var tail := store[1..];
    forall x | x in OtherSlugs(store, selfId)
      ensures x in (if store[0].id != selfId && store[0].slug.Some? then {store[0].slug.value} else {}) + OtherSlugs(tail, selfId)
    {
      var i :| 0 <= i < |store| && store[i].id != selfId && store[i].slug.Some? && store[i].slug.value == x;
      if i > 0 {
        assert tail[i - 1] == store[i];
      }
    }
    forall x | x in OtherSlugs(tail, selfId)
      ensures x in OtherSlugs(store, selfId)
    {
      var i :| 0 <= i < |tail| && tail[i].id != selfId && tail[i].slug.Some? && tail[i].slug.value == x;
      assert store[i + 1] == tail[i];
    }
  }

  /**
   * The query `{slug: /^key/, _id: {$ne: selfId}}`, projected on the slug:
   * the current slugs of the other records that start with the key, in store
   * order.
   */
  function Competitors(store: seq<StoredRecord>, selfId: nat, key: string): (others: seq<string>)
    ensures forall x :: x in others <==> x in OtherSlugs(store, selfId) && StartsWith(x, key)
    ensures others == [] <==> forall i :: 0 <= i < |store| ==> !IsCompetitor(store[i], selfId, key)
    decreases |store|
  {
    if store == [] then []
    else
      OtherSlugsUncons(store, selfId);
      var rest := Competitors(store[1..], selfId, key);
      assert forall i :: 1 <= i < |store| ==> store[i] == store[1..][i - 1];
      if IsCompetitor(store[0], selfId, key) then [store[0].slug.value] + rest else rest
  }

  // ---------------------------------------------------------------------------
  // The slot

  /**
   * `docSlug.match(new RegExp(key + separator + '([0-9]+)$'))`: the regular
   * expression is not anchored at the start, so it matches when the slug ends
   * with the key, the separator and one or more digits.
   */
  ghost predicate NumberedAs(s: string, key: string, sep: char, d: string) {
    d != [] && AllDigits(d) && EndsWith(s, key + [sep] + d)
  }

  /**
   * The number captured by that match, if it matches. The separator is not a
   * digit, so the digits after it are the whole trailing digit run.
   */
  function SuffixNumber(s: string, key: string, sep: char): Option<nat> {
    var d := TrailingDigits(s);
    var p := |s| - |d|;
    if |d| > 0 && p > 0 && s[p - 1] == sep && EndsWith(s[..p - 1], key) then Some(DigitsValue(d)) else None
  }

  /** A slug that ends with key, separator and digits `d` parses to the value of `d`. */
  lemma NumberedParses(s: string, key: string, sep: char, d: string)
    requires !IsDigit(sep)
    requires NumberedAs(s, key, sep, d)
    ensures SuffixNumber(s, key, sep) == Some(DigitsValue(d))
  {
    var w := key + [sep] + d;
    var pre := s[..|s| - |w|];
    assert s == pre + w;
    assert pre + w == pre + key + [sep] + d;
    ConcatParses(pre, key, sep, d);
  }

  lemma ConcatParses(pre: string, key: string, sep: char, d: string)
    requires !IsDigit(sep) && d != [] && AllDigits(d)
    ensures SuffixNumber(pre + key + [sep] + d, key, sep) == Some(DigitsValue(d))
  {
    var head := pre + key;
    var x := head + [sep];
    var s := x + d;
    assert x[|x| - 1] == sep;
    TrailingDigitsAfterNonDigit(x, d);
    var p := |s| - |d|;
    assert p == |x|;
    assert s[p - 1] == sep;
    assert s[..p - 1] == head by {
      assert s[..p] == x;
      assert x[..|x| - 1] == head;
    }
    assert EndsWith(head, key) by {
      assert head[|head| - |key|..] == key;
    }
  }

  /** A slug that parses ends with key, separator and its trailing digit run. */
  lemma ParsedIsNumbered(s: string, key: string, sep: char)
    requires SuffixNumber(s, key, sep).Some?
    ensures NumberedAs(s, key, sep, TrailingDigits(s))
    ensures SuffixNumber(s, key, sep).value == DigitsValue(TrailingDigits(s))
  {
    var t := TrailingDigits(s);
    var p := |s| - |t|;
    var k := s[..p - 1];
    assert s == k + [sep] + t by {
      assert s[p..] == t;
      assert s == s[..p - 1] + [s[p - 1]] + s[p..];
    }
    var q := |k| - |key|;
    assert k[q..] == key;
    assert s[q..] == k[q..] + [sep] + t;
  }


  /**
   * The count of one competitor (index.js:64-69): 1 for an exact copy of the
   * candidate, otherwise the captured number plus 1, or 0 plus 1 when the
   * expression does not match.
   */
  function Count(other: string, candidate: string, key: string, sep: char): nat {
    if other == candidate then 1
    else (match SuffixNumber(other, key, sep) case Some(n) => n case None => 0) + 1
  }

  /** `docs.reduce((max, doc) => count > max ? count : max, acc)`. */
  function FoldMax(others: seq<string>, candidate: string, key: string, sep: char, acc: nat): (m: nat)
    ensures m >= acc
    ensures forall i :: 0 <= i < |others| ==> Count(others[i], candidate, key, sep) <= m
    ensures m == acc || exists i :: 0 <= i < |others| && Count(others[i], candidate, key, sep) == m
    decreases |others|
  {
    if others == [] then acc
    else
      var count := Count(others[0], candidate, key, sep);
      var m := FoldMax(others[1..], candidate, key, sep, if count > acc then count else acc);
      assert forall i :: 1 <= i < |others| ==> others[i] == others[1..][i - 1];
      m
  }

  /**
   * `k` is the largest count over `others`, raised to 2 if it is smaller:
   * at least 2, no smaller than any count, and equal to 2 or to some count.
   */
  ghost predicate IsBumpedMaximum(k: nat, others: seq<string>, candidate: string, key: string, sep: char) {
    && k >= 2
    && (forall i :: 0 <= i < |others| ==> Count(others[i], candidate, key, sep) <= k)
    && (k == 2 || exists i :: 0 <= i < |others| && Count(others[i], candidate, key, sep) == k)
  }

  /**
   * The slot appended to the candidate: the largest count over the
   * competitors, except that 1 becomes 2 (index.js:73). Every count is at
   * least 1, so the slot is at least 2: neither "-0" nor "-1" is produced.
   */
  function Slot(others: seq<string>, candidate: string, key: string, sep: char): (k: nat)
    requires others != []
    ensures IsBumpedMaximum(k, others, candidate, key, sep)
  {
    var m := FoldMax(others, candidate, key, sep, 0);
    assert Count(others[0], candidate, key, sep) >= 1;
    if m == 1 then 2 else m
  }

  // ---------------------------------------------------------------------------
  // The resolver

  /** The callback's `(exists, slug)` pair: `kept` is true when the candidate is returned as it is. */
  datatype Resolution = Resolution(kept: bool, slug: string)

  predicate NoCompetitor(store: seq<StoredRecord>, selfId: nat, key: string) {
    forall i :: 0 <= i < |store| ==> !IsCompetitor(store[i], selfId, key)
  }

  /** The separator followed by one or more digits. */
  predicate IsBareSuffix(s: string, sep: char) {
    |s| >= 2 && s[0] == sep && AllDigits(s[1..])
  }

  /** `separator + max`: the suffix for the competitors `others` of the candidate. */
  function Suffix(candidate: string, o: Options, others: seq<string>): (suffix: string)
    requires others != []
    ensures IsBareSuffix(suffix, o.separator.Char())
  {
    var key := MatchKey(candidate, o.maxLength);
    var sep := o.separator.Char();
    var k := Slot(others, candidate, key, sep);
    assert ([sep] + Numeral(k))[1..] == Numeral(k);
    [sep] + Numeral(k)
  }

  /**
   * What the query callback does with the competitors it found
   * (index.js:61-78): no competitor keeps the candidate; otherwise the
   * suffix is appended, after cutting the candidate to leave room for it
   * when a length limit is set.
   */
  function ResolveAgainst(candidate: string, o: Options, others: seq<string>): Resolution {
    if others == [] then Resolution(true, candidate)
    else
      var suffix := Suffix(candidate, o, others);
      Resolution(false, (if o.maxLength > 0 then Prefix(candidate, o.maxLength - |suffix|) else candidate) + suffix)
  }

  /**
   * `ensureUniqueSlug(candidate)` for the record `selfId`. `fault` is the
   * outcome of the prefix query; when uniqueness is off no query is made.
   */
  function EnsureUniqueSlug(candidate: string, o: Options, store: seq<StoredRecord>, selfId: nat, fault: Option<StoreFault>)
    : (r: Result<Resolution, StoreFault>)
    ensures r.Failure? <==> o.unique && fault.Some?
    ensures r.Failure? ==> r.error == fault.value
    ensures r.Success? ==> (r.value.kept <==> !o.unique || NoCompetitor(store, selfId, MatchKey(candidate, o.maxLength)))
    ensures r.Success? && r.value.kept ==> r.value.slug == candidate
  {
    if !o.unique then Success(Resolution(true, candidate))
    else if fault.Some? then Failure(fault.value)
    else Success(ResolveAgainst(candidate, o, Competitors(store, selfId, MatchKey(candidate, o.maxLength))))
  }

  // ---------------------------------------------------------------------------
  // Properties of the resolver

  /**
   * With competitors, the candidate is followed by the suffix; with a limit
   * it is first cut to `maxLength - |suffix|` characters, which may leave
   * nothing of it.
   */
  lemma ResolvedShape(candidate: string, o: Options, others: seq<string>)
    requires others != []
    ensures ResolveAgainst(candidate, o, others)
         == Resolution(false, (if o.maxLength > 0 then Prefix(candidate, o.maxLength - |Suffix(candidate, o, others)|) else candidate)
                              + Suffix(candidate, o, others))
  {
  }

  /** The bumped maximum is unique: the slot is determined by the competitors' counts. */
  lemma BumpedMaximumUnique(k1: nat, k2: nat, others: seq<string>, candidate: string, key: string, sep: char)
    requires IsBumpedMaximum(k1, others, candidate, key, sep)
    requires IsBumpedMaximum(k2, others, candidate, key, sep)
    ensures k1 == k2
  {
    if k1 != 2 {
      var i :| 0 <= i < |others| && Count(others[i], candidate, key, sep) == k1;
      assert k1 <= k2;
    }
    if k2 != 2 {
      var j :| 0 <= j < |others| && Count(others[j], candidate, key, sep) == k2;
      assert k2 <= k1;
    }
  }

  /**
   * The suffix is the separator followed by the decimal numeral of the slot:
   * the largest competitor count, raised to 2 if it is smaller.
   */
  lemma SuffixCarriesSlot(candidate: string, o: Options, others: seq<string>, k: nat)
    requires others != []
    requires IsBumpedMaximum(k, others, candidate, MatchKey(candidate, o.maxLength), o.separator.Char())
    ensures Suffix(candidate, o, others) == [o.separator.Char()] + Numeral(k)
  {
    BumpedMaximumUnique(k, Slot(others, candidate, MatchKey(candidate, o.maxLength), o.separator.Char()),
                        others, candidate, MatchKey(candidate, o.maxLength), o.separator.Char());
  }

  /** A cut candidate followed by a suffix: within `limit`, or the bare suffix. */
  lemma CutAndSuffix(base: string, suffix: string, limit: nat, sep: char)
    requires IsBareSuffix(suffix, sep)
    requires |suffix| > limit ==> base == []
    requires |suffix| <= limit ==> |base| <= limit - |suffix|
    ensures var r := base + suffix;
      |r| <= limit || (|r| > limit && IsBareSuffix(r, sep))
  {
    if |suffix| > limit {
      assert base + suffix == suffix;
    }
  }

  /**
   * The length limit, for a candidate no longer than the limit. The result
   * is longer than the limit only when the suffix alone is, and then the
   * result is that bare suffix.
   */
  lemma ResolvedWithinLimit(candidate: string, o: Options, others: seq<string>)
    requires o.maxLength > 0 && |candidate| <= o.maxLength
    ensures var r := ResolveAgainst(candidate, o, others).slug;
      |r| <= o.maxLength || (|r| > o.maxLength && IsBareSuffix(r, o.separator.Char()))
  {
    if others != [] {
      var suffix := Suffix(candidate, o, others);
      ResolvedShape(candidate, o, others);
      CutAndSuffix(Prefix(candidate, o.maxLength - |suffix|), suffix, o.maxLength, o.separator.Char());
    }
  }

  /**
   * A candidate that fills the limit resolves to a slug that fills it too,
   * unless the suffix alone is longer than the limit: then the slug is that
   * bare suffix.
   */
  lemma ResolvedFillsLimit(candidate: string, o: Options, others: seq<string>)
    requires o.maxLength > 0 && |candidate| == o.maxLength
    ensures var r := ResolveAgainst(candidate, o, others).slug;
      |r| == o.maxLength || (|r| > o.maxLength && IsBareSuffix(r, o.separator.Char()))
  {
    if others != [] {
      var suffix := Suffix(candidate, o, others);
      var base := Prefix(candidate, o.maxLength - |suffix|);
      ResolvedShape(candidate, o, others);
      CutAndSuffix(base, suffix, o.maxLength, o.separator.Char());
      if |suffix| <= o.maxLength {
        assert |base + suffix| == o.maxLength;
      }
    }
  }

  predicate SlugChars(s: string) {
    forall i :: 0 <= i < |s| ==> IsSlugChar(s[i])
  }

  lemma SlugCharsConcat(a: string, b: string)
    requires SlugChars(a) && SlugChars(b)
    ensures SlugChars(a + b)
  {
    forall i | 0 <= i < |a + b| ensures IsSlugChar((a + b)[i]) {
      if i >= |a| {
        assert (a + b)[i] == b[i - |a|];
      }
    }
  }

  lemma SuffixIsUrlSafe(candidate: string, o: Options, others: seq<string>)
    requires others != []
    ensures SlugChars(Suffix(candidate, o, others))
  {
    var suffix := Suffix(candidate, o, others);
    forall i | 0 <= i < |suffix| ensures IsSlugChar(suffix[i]) {
      if i > 0 {
        assert suffix[i] == suffix[1..][i - 1];
      }
    }
  }

  /** A candidate made of [a-z0-9-_] characters resolves to a slug made of them too. */
  lemma ResolvedIsUrlSafe(candidate: string, o: Options, others: seq<string>)
    requires SlugChars(candidate)
    ensures SlugChars(ResolveAgainst(candidate, o, others).slug)
  {
    if others != [] {
      var suffix := Suffix(candidate, o, others);
      SuffixIsUrlSafe(candidate, o, others);
      var base := if o.maxLength > 0 then Prefix(candidate, o.maxLength - |suffix|) else candidate;
      assert SlugChars(base) by {
        assert forall i :: 0 <= i < |base| ==> base[i] == candidate[i];
      }
      ResolvedShape(candidate, o, others);
      SlugCharsConcat(base, suffix);
    }
  }

  lemma NumberedSlugCounts(x: string, candidate: string, sep: char, k: nat)
    requires !IsDigit(sep)
    requires x == candidate + [sep] + Numeral(k)
    ensures Count(x, candidate, candidate, sep) == k + 1
  {
    assert EndsWith(x, candidate + [sep] + Numeral(k));
    NumberedParses(x, candidate, sep, Numeral(k));
    NumeralRoundTrip(k);
  }

  /**
   * The candidate is not cut: there is no length limit, or the candidate is
   * shorter than the limit (so it is its own match key) and the suffix fits
   * after it.
   */
  predicate KeptWhole(candidate: string, o: Options, others: seq<string>) {
    || o.maxLength == 0
    || (|candidate| < o.maxLength && (others == [] || |candidate| + |Suffix(candidate, o, others)| <= o.maxLength))
  }

  /**
   * An uncut candidate resolves to none of the competitors: one holding
   * candidate + separator + k would have count k + 1, larger than the slot k.
   */
  lemma ResolvedDiffersFromCompetitors(candidate: string, o: Options, others: seq<string>)
    requires KeptWhole(candidate, o, others)
    ensures ResolveAgainst(candidate, o, others).slug !in others || others == []
  {
    if others != [] {
      var sep := o.separator.Char();
      assert MatchKey(candidate, o.maxLength) == candidate;
      var k := Slot(others, candidate, candidate, sep);
      var x := candidate + [sep] + Numeral(k);
      var suffix := Suffix(candidate, o, others);
      assert suffix == [sep] + Numeral(k);
      ResolvedShape(candidate, o, others);
      if o.maxLength > 0 {
        assert Prefix(candidate, o.maxLength - |suffix|) == candidate;
      }
      assert ResolveAgainst(candidate, o, others).slug == x;
      NumberedSlugCounts(x, candidate, sep, k);
      assert forall i :: 0 <= i < |others| ==> Count(others[i], candidate, candidate, sep) <= k;
      assert forall i :: 0 <= i < |others| ==> others[i] != x;
    }
  }

  /**
   * An uncut candidate resolves to a slug held by no other record. A record
   * that held it would start with the candidate and so be among the
   * competitors.
   */
  lemma ResolvedSlugIsFresh(candidate: string, o: Options, store: seq<StoredRecord>, selfId: nat)
    requires o.unique && KeptWhole(candidate, o, Competitors(store, selfId, candidate))
    ensures var r := EnsureUniqueSlug(candidate, o, store, selfId, None);
      r.Success? && r.value.slug !in OtherSlugs(store, selfId)
  {
    assert MatchKey(candidate, o.maxLength) == candidate;
    var others := Competitors(store, selfId, candidate);
    ResolvedDiffersFromCompetitors(candidate, o, others);
    var r := ResolveAgainst(candidate, o, others);
    if others != [] {
      ResolvedShape(candidate, o, others);
      if o.maxLength > 0 {
        assert Prefix(candidate, o.maxLength - |Suffix(candidate, o, others)|) == candidate;
      }
    }
    assert StartsWith(r.slug, candidate);
  }

  /**
   * With a length limit the resolved slug is not always fresh. A candidate
   * "abc-2" that fills a limit of 5 is matched on the key "abc"; another
   * record holding "abc-2" is an exact copy and counts 1, the slot is 2, and
   * the candidate cut to 3 characters plus "-2" is "abc-2" again.
   */
  lemma LimitedResolutionCanRepeat()
    ensures var o := Options(Single("title"), Dash, 5, false, true, false, false, true);
      var store := [StoredRecord(1, Some("abc-2"), [])];
      var r := EnsureUniqueSlug("abc-2", o, store, 2, None);
      r.Success? && r.value.slug == "abc-2" && r.value.slug in OtherSlugs(store, 2)
  {
    var o := Options(Single("title"), Dash, 5, false, true, false, false, true);
    var store := [StoredRecord(1, Some("abc-2"), [])];
    assert MatchKey("abc-2", 5) == "abc";
    assert Competitors(store, 2, "abc") == ["abc-2"] by {
      assert Competitors(store[1..], 2, "abc") == [];
    }
    assert Slot(["abc-2"], "abc-2", "abc", '-') == 2;
    assert Numeral(2) == "2";
    assert Suffix("abc-2", o, ["abc-2"]) == "-2";
    assert Prefix("abc-2", 3) == "abc";
    assert store[0].slug.value in OtherSlugs(store, 2);
  }
}
