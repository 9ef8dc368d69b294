/**
 * The `pre('validate')` hook: before a record is validated it may receive a
 * new slug, generated from its source fields and made unique against the
 * other records, and the slug it held before may be kept in its history.
 *
 * `PrepareSlug` is the specification of one run of the hook on the record's
 * slug and history. `Doc.PreValidate` is the hook as it runs on a record,
 * proved to leave the record in the state `PrepareSlug` describes.
 *
 * The record's field values are a map from field name to text; a missing
 * field, `null` and `undefined` all read as "", because the hook only tests
 * them for truthiness. `modified` is the set of fields the record marks as
 * modified, and `isNew` tells whether it has never been saved. The HTML tag
 * stripper is the parameter `strip`, and the current time is `now`.
 */
module SlugHook {
  import opened Wrappers
  import opened Strings
  import opened SlugGenerator
  import opened SlugOptions
  import opened SlugStore
  import opened UniqueSlug

  // ---------------------------------------------------------------------------
  // The source text

  /** `doc.get(name, String)`, with every falsy value read as "". */
  function FieldValue(values: map<string, string>, name: string): string {
    if name in values then values[name] else ""
  }

  /** One field's contribution: its value, stripped of HTML tags when that option is on and the value is truthy. */
  function FieldText(values: map<string, string>, name: string, stripHtml: bool, strip: string -> string): string {
    var v := FieldValue(values, name);
    if stripHtml && v != "" then strip(v) else v
  }

  function FieldTexts(values: map<string, string>, names: seq<string>, stripHtml: bool, strip: string -> string): (parts: seq<string>)
    ensures |parts| == |names|
    ensures forall i :: 0 <= i < |names| ==> parts[i] == FieldText(values, names[i], stripHtml, strip)
  {
    seq(|names|, i requires 0 <= i < |names| => FieldText(values, names[i], stripHtml, strip))
  }

  lemma FieldTextsSnoc(values: map<string, string>, names: seq<string>, i: nat, stripHtml: bool, strip: string -> string)
    requires i < |names|
    ensures SpaceTerminated(FieldTexts(values, names[..i + 1], stripHtml, strip))
         == SpaceTerminated(FieldTexts(values, names[..i], stripHtml, strip))
          + (var part := FieldText(values, names[i], stripHtml, strip); if part != "" then part + " " else "")
  {
    var longer := FieldTexts(values, names[..i + 1], stripHtml, strip);
    assert longer[..i] == FieldTexts(values, names[..i], stripHtml, strip);
  }

  /**
   * The non-empty parts joined by single spaces. Empty parts are skipped, so
   * they add no space.
   */
  function JoinNonEmpty(parts: seq<string>): (r: string)
    ensures r == "" <==> forall i :: 0 <= i < |parts| ==> parts[i] == ""
    decreases |parts|
  {
    if parts == [] then ""
    else
      var init := JoinNonEmpty(parts[..|parts| - 1]);
      var last := parts[|parts| - 1];
      assert forall i :: 0 <= i < |parts| - 1 ==> parts[..|parts| - 1][i] == parts[i];
      if last == "" then init else if init == "" then last else init + " " + last
  }

  /** What the loop accumulates: each non-empty part followed by a space. */
  function SpaceTerminated(parts: seq<string>): string
    decreases |parts|
  {
    if parts == [] then ""
    else
      var last := parts[|parts| - 1];
      SpaceTerminated(parts[..|parts| - 1]) + (if last != "" then last + " " else "")
  }

  /** The accumulated text is the joined text followed by one space, or "" when every part is empty. */
  lemma {:induction false} SpaceTerminatedIsJoin(parts: seq<string>)
    ensures SpaceTerminated(parts) == (if JoinNonEmpty(parts) == "" then "" else JoinNonEmpty(parts) + " ")
    decreases |parts|
  {
    if parts != [] {
      SpaceTerminatedIsJoin(parts[..|parts| - 1]);
    }
  }

  /** An empty part does not change the joined text: a field with no value is skipped. */
  lemma {:induction false} JoinSkipsEmpty(parts: seq<string>, k: nat)
    requires k < |parts| && parts[k] == ""
    ensures JoinNonEmpty(parts) == JoinNonEmpty(parts[..k] + parts[k + 1..])
    decreases |parts|
  {
    var n := |parts|;
    var without := parts[..k] + parts[k + 1..];
    if k == n - 1 {
      assert without == parts[..n - 1];
    } else {
      var init := parts[..n - 1];
      var last := parts[n - 1];
      var initWithout := init[..k] + init[k + 1..];
      JoinSkipsEmpty(init, k);
      var joined := JoinNonEmpty(init);
      assert init[..k] == parts[..k];
      assert parts[k + 1..] == init[k + 1..] + [last];
      assert without == initWithout + [last];
      assert (initWithout + [last])[..|initWithout|] == initWithout;
      assert without[|without| - 1] == last;
      assert JoinNonEmpty(parts) == (if last == "" then joined else if joined == "" then last else joined + " " + last);
      assert JoinNonEmpty(without) == (if last == "" then joined else if joined == "" then last else joined + " " + last);
    }
  }

  /** Two non-empty parts are joined with one space between them. */
  lemma JoinTwo(a: string, b: string)
    requires a != "" && b != ""
    ensures JoinNonEmpty([a, b]) == a + " " + b
  {
    assert [a, b][..1] == [a];
    assert [a][..0] == [];
  }

  /**
   * The text handed to the generator: the single field's text, or the
   * non-empty texts of the listed fields joined by spaces.
   */
  function SourceText(fields: SlugFields, values: map<string, string>, stripHtml: bool, strip: string -> string): string {
    match fields
    case Single(name) => FieldText(values, name, stripHtml, strip)
    case Many(names) => JoinNonEmpty(FieldTexts(values, names, stripHtml, strip))
  }

  /** `slugFieldsModified`: the record is new or one of the source fields is marked modified. */
  predicate SourceModified(fields: SlugFields, modified: set<string>, isNew: bool) {
    match fields
    case Single(name) => isNew || name in modified
    case Many(names) => isNew || exists j :: 0 <= j < |names| && names[j] in modified
  }

  /**
   * The first half of the hook (index.js:117-151): reads the source fields
   * in order, builds the text to slugify and finds out whether a source
   * field changed.
   */
  method GatherSource(fields: SlugFields, values: map<string, string>, modified: set<string>, isNew: bool,
                      stripHtml: bool, strip: string -> string)
    returns (text: string, changed: bool)
    ensures text == SourceText(fields, values, stripHtml, strip)
    ensures changed == SourceModified(fields, modified, isNew)
  {
    changed := isNew;
    match fields
    case Single(name) =>
      if name in modified {
        changed := true;
      }
      text := FieldText(values, name, stripHtml, strip);
    case Many(names) =>
      var acc := "";
      for i := 0 to |names|
        invariant acc == SpaceTerminated(FieldTexts(values, names[..i], stripHtml, strip))
        invariant changed <==> isNew || exists j :: 0 <= j < i && names[j] in modified
      {
        if names[i] in modified {
          changed := true;
        } else {
          assert forall j :: 0 <= j < i + 1 && names[j] in modified ==> j < i;
        }
        var part := FieldText(values, names[i], stripHtml, strip);
        FieldTextsSnoc(values, names, i, stripHtml, strip);
        if part != "" {
          acc := acc + (part + " ");
        }
      }
      assert names[..|names|] == names;
      var parts := FieldTexts(values, names, stripHtml, strip);
      SpaceTerminatedIsJoin(parts);
      text := Prefix(acc, |acc| - 1);
      assert acc == "" || acc == JoinNonEmpty(parts) + " ";
      assert acc != "" ==> acc[..|acc| - 1] == JoinNonEmpty(parts);
  }

  // ---------------------------------------------------------------------------
  // The specification of one run of the hook

  /** The part of a record the hook may change: its slug and its slug history. */
  datatype DocState = DocState(slug: Option<string>, history: seq<HistoryEntry>)

  /** JavaScript truthiness of the current slug: set and not "". */
  predicate Truthy(s: Option<string>) {
    s.Some? && s.value != ""
  }

  /**
   * The hook computes a slug unless the record was saved before, updates are
   * off and it already has a slug (index.js:115), or no source field changed
   * (index.js:153).
   */
  predicate Regenerates(o: Options, cur: DocState, modified: set<string>, isNew: bool) {
    && !(!isNew && !o.update && Truthy(cur.slug))
    && SourceModified(o.fields, modified, isNew)
  }

  /** The generator's output for the record's source text. */
  function Generated(o: Options, values: map<string, string>, strip: string -> string): string {
    Generate(SourceText(o.fields, values, o.stripHtml, strip), o.separator)
  }

  /** `sparse` with an empty generated slug: the slug is unset instead of resolved (index.js:157-160). */
  predicate Unsets(o: Options, values: map<string, string>, strip: string -> string) {
    o.sparse && Generated(o, values, strip) == ""
  }

  /** The generated slug cut to the length limit (index.js:162): the candidate handed to the resolver. */
  function Candidate(o: Options, values: map<string, string>, strip: string -> string): (c: string)
    ensures o.maxLength > 0 ==> |c| <= o.maxLength
    ensures StartsWith(Generated(o, values, strip), c)
    ensures o.maxLength == 0 || |Generated(o, values, strip)| <= o.maxLength ==> c == Generated(o, values, strip)
  {
    var g := Generated(o, values, strip);
    if o.maxLength > 0 then Prefix(g, o.maxLength) else g
  }

  /** The history entry for the slug being replaced, when the history is kept and there was a slug. */
  function NewHistory(o: Options, cur: DocState, now: int): (h: seq<HistoryEntry>)
    ensures o.saveHistory && Truthy(cur.slug) ==> h == cur.history + [HistoryEntry(cur.slug.value, now)]
    ensures !(o.saveHistory && Truthy(cur.slug)) ==> h == cur.history
  {
    if o.saveHistory && Truthy(cur.slug) then cur.history + [HistoryEntry(cur.slug.value, now)] else cur.history
  }

  /**
   * One run of the hook on the record `selfId` with state `cur`, against the
   * other records in `store`; `fault` is the outcome of the resolver's query.
   */
  function PrepareSlug(o: Options, cur: DocState, values: map<string, string>, modified: set<string>, isNew: bool,
                       selfId: nat, store: seq<StoredRecord>, fault: Option<StoreFault>, now: int, strip: string -> string)
    : (r: Result<DocState, StoreFault>)
    ensures !Regenerates(o, cur, modified, isNew) ==> r == Success(cur)
    ensures Regenerates(o, cur, modified, isNew) && Unsets(o, values, strip) ==> r == Success(DocState(None, cur.history))
    ensures r.Failure? <==> Regenerates(o, cur, modified, isNew) && !Unsets(o, values, strip) && o.unique && fault.Some?
    ensures r.Failure? ==> r.error == fault.value
    ensures r.Success? && Regenerates(o, cur, modified, isNew) && !Unsets(o, values, strip) ==>
      && r.value.slug == Some(EnsureUniqueSlug(Candidate(o, values, strip), o, store, selfId, fault).value.slug)
      && r.value.history == (if o.saveHistory && Truthy(cur.slug) then cur.history + [HistoryEntry(cur.slug.value, now)] else cur.history)
  {
    if !Regenerates(o, cur, modified, isNew) then Success(cur)
    else if Unsets(o, values, strip) then Success(DocState(None, cur.history))
    else
      match EnsureUniqueSlug(Candidate(o, values, strip), o, store, selfId, fault)
      case Failure(e) => Failure(e)
      case Success(res) => Success(DocState(Some(res.slug), NewHistory(o, cur, now)))
  }

  // ---------------------------------------------------------------------------
  // The record

  /** A record with the hook attached. */
  class Doc {
    const id: nat
    var values: map<string, string>
    var modified: set<string>
    var isNew: bool
    var slug: Option<string>
    var history: seq<HistoryEntry>

    /** A new record: the slug field holds its schema default "" and the history is empty. */
    constructor (id: nat, values: map<string, string>)
      ensures this.id == id && this.values == values && modified == values.Keys && isNew
      ensures slug == Some("") && history == []
    {
      this.id := id;
      this.values := values;
      modified := values.Keys;
      isNew := true;
      slug := Some("");
      history := [];
    }

    /**
     * The hook. On an error from the resolver's query the record is left as
     * it was and the error is returned; otherwise the record's slug and
     * history become those of `PrepareSlug`.
     */
    method PreValidate(o: Options, store: seq<StoredRecord>, fault: Option<StoreFault>, now: int, strip: string -> string)
      returns (err: Option<StoreFault>)
      modifies this`slug, this`history
      ensures var r := PrepareSlug(o, DocState(old(slug), old(history)), values, modified, isNew, id, store, fault, now, strip);
        && (r.Failure? ==> err == Some(r.error) && slug == old(slug) && history == old(history))
        && (r.Success? ==> err.None? && slug == r.value.slug && history == r.value.history)
    {
      ghost var cur := DocState(slug, history);
      ghost var r := PrepareSlug(o, cur, values, modified, isNew, id, store, fault, now, strip);
      var currentSlug := slug;
      if !isNew && !o.update && Truthy(currentSlug) {
        assert r == Success(cur);
        return None;
      }
      var text, changed := GatherSource(o.fields, values, modified, isNew, o.stripHtml, strip);
      if !changed {
        assert r == Success(cur);
        return None;
      }
      assert Regenerates(o, cur, modified, isNew);
      var newSlug := Generate(text, o.separator);
      assert newSlug == Generated(o, values, strip);
      if newSlug == "" && o.sparse {
        assert r == Success(DocState(None, cur.history));
        slug := None;
        return None;
      }
      assert !Unsets(o, values, strip);
      if o.maxLength > 0 {
        newSlug := Prefix(newSlug, o.maxLength);
      }
      assert newSlug == Candidate(o, values, strip);
      var resolved := EnsureUniqueSlug(newSlug, o, store, id, fault);
      if resolved.Failure? {
        assert r == Failure(resolved.error);
        return Some(resolved.error);
      }
      assert r == Success(DocState(Some(resolved.value.slug), NewHistory(o, cur, now)));
      slug := Some(resolved.value.slug);
      if o.saveHistory && Truthy(currentSlug) {
        history := history + [HistoryEntry(currentSlug.value, now)];
      }
      return None;
    }
  }

  // ---------------------------------------------------------------------------
  // Properties of the hook

  /** Every slug the hook writes is made of [a-z0-9-_] characters. */
  lemma PreparedSlugIsUrlSafe(o: Options, cur: DocState, values: map<string, string>, modified: set<string>, isNew: bool,
                              selfId: nat, store: seq<StoredRecord>, fault: Option<StoreFault>, now: int, strip: string -> string)
    requires Regenerates(o, cur, modified, isNew)
    ensures var r := PrepareSlug(o, cur, values, modified, isNew, selfId, store, fault, now, strip);
      r.Success? && r.value.slug.Some? ==> SlugChars(r.value.slug.value)
  {
    if !Unsets(o, values, strip) && (!o.unique || fault.None?) {
      var c := Candidate(o, values, strip);
      var g := Generated(o, values, strip);
      assert forall i :: 0 <= i < |c| ==> c[i] == g[i];
      if o.unique {
        ResolvedIsUrlSafe(c, o, Competitors(store, selfId, MatchKey(c, o.maxLength)));
      }
    }
  }

  /**
   * With a length limit, the slug the hook writes fits it, except when the
   * suffix alone is longer than the limit: then the slug is that suffix, the
   * separator followed by digits.
   */
  lemma PreparedSlugWithinLimit(o: Options, cur: DocState, values: map<string, string>, modified: set<string>, isNew: bool,
                                selfId: nat, store: seq<StoredRecord>, fault: Option<StoreFault>, now: int, strip: string -> string)
    requires o.maxLength > 0 && Regenerates(o, cur, modified, isNew)
    ensures var r := PrepareSlug(o, cur, values, modified, isNew, selfId, store, fault, now, strip);
      r.Success? && r.value.slug.Some? ==>
        var s := r.value.slug.value;
        |s| <= o.maxLength || (|s| > o.maxLength && IsBareSuffix(s, o.separator.Char()))
  {
    if !Unsets(o, values, strip) && o.unique && fault.None? {
      var c := Candidate(o, values, strip);
      ResolvedWithinLimit(c, o, Competitors(store, selfId, MatchKey(c, o.maxLength)));
    }
  }

  /**
   * When the generated slug is not cut (no length limit, or it is shorter
   * than the limit with room for the suffix), a hook run that resolves a slug
   * against a store that answers gives a slug no other record holds.
   */
  lemma PreparedSlugIsFresh(o: Options, cur: DocState, values: map<string, string>, modified: set<string>, isNew: bool,
                            selfId: nat, store: seq<StoredRecord>, now: int, strip: string -> string)
    requires o.unique
    requires KeptWhole(Generated(o, values, strip), o, Competitors(store, selfId, Generated(o, values, strip)))
    requires Regenerates(o, cur, modified, isNew) && !Unsets(o, values, strip)
    ensures var r := PrepareSlug(o, cur, values, modified, isNew, selfId, store, None, now, strip);
      r.Success? && r.value.slug.Some? && r.value.slug.value !in OtherSlugs(store, selfId)
  {
    assert Candidate(o, values, strip) == Generated(o, values, strip);
    ResolvedSlugIsFresh(Candidate(o, values, strip), o, store, selfId);
  }

  /**
   * When no other record's slug starts with the candidate, the hook writes
   * the generated slug itself.
   */
  lemma PreparedSlugWithoutCompetitors(o: Options, cur: DocState, values: map<string, string>, modified: set<string>, isNew: bool,
                                       selfId: nat, store: seq<StoredRecord>, now: int, strip: string -> string)
    requires Regenerates(o, cur, modified, isNew) && !Unsets(o, values, strip)
    requires o.maxLength == 0 || |Generated(o, values, strip)| < o.maxLength
    requires forall i :: 0 <= i < |store| ==> !IsCompetitor(store[i], selfId, Generated(o, values, strip))
    ensures var r := PrepareSlug(o, cur, values, modified, isNew, selfId, store, None, now, strip);
      r.Success? && r.value.slug == Some(Generated(o, values, strip))
  {
    assert MatchKey(Candidate(o, values, strip), o.maxLength) == Generated(o, values, strip);
  }

  /**
   * A generated slug at least as long as the limit gives a slug exactly as
   * long as the limit, unless the suffix alone is longer than the limit.
   */
  lemma PreparedSlugFillsLimit(o: Options, cur: DocState, values: map<string, string>, modified: set<string>, isNew: bool,
                               selfId: nat, store: seq<StoredRecord>, fault: Option<StoreFault>, now: int, strip: string -> string)
    requires o.maxLength > 0 && Regenerates(o, cur, modified, isNew)
    requires |Generated(o, values, strip)| >= o.maxLength
    ensures var r := PrepareSlug(o, cur, values, modified, isNew, selfId, store, fault, now, strip);
      r.Success? ==>
        r.value.slug.Some? &&
        var s := r.value.slug.value;
        |s| == o.maxLength || (|s| > o.maxLength && IsBareSuffix(s, o.separator.Char()))
  {
    var c := Candidate(o, values, strip);
    assert |c| == o.maxLength;
    if o.unique && fault.None? {
      ResolvedFillsLimit(c, o, Competitors(store, selfId, MatchKey(c, o.maxLength)));
    }
  }
}
