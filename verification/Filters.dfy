/**
 Query filters: when a document matches, with the test of each field left open, and the
 top-level fields a filter names.
 */
module Filters {
  import opened Bytes
  import opened RawCodec
  import opened Expressions
  import opened FieldRoots

  /**
   field tests the value at a key's root, sample is chance by position, anything may look at the
   whole document, and empty stands for the error of combining no filters.
   */
  datatype Tests = Tests(
    field: (bytes, Val, Option<Val>) -> bool,
    empty: bytes -> bool,
    sample: (Val, nat) -> bool,
    anything: (bytes, Val, Entries) -> bool)

  predicate Combines(key: bytes) { key == Ascii("$and") || key == Ascii("$or") || key == Ascii("$nor") }

  predicate Ignored(key: bytes) { key == Ascii("$comment") || key == Ascii("$sampleRate") }

  predicate AllDocs(items: Entries) { items.Entry? ==> items.value.Doc? && AllDocs(items.rest) }

  /** Every entry of the filter holds of the n-th document. */
  predicate Matches(T: Tests, es: Entries, d: Entries, n: nat)
    decreases es, 1
  {
    es.Entry? ==> EntryMatches(T, es.name, es.value, d, n) && Matches(T, es.rest, d, n)
  }

  predicate EntryMatches(T: Tests, key: bytes, value: Val, d: Entries, n: nat)
    decreases value, 2
  {
    if Combines(key) then
      if value.Arr? && value.items.Nil? then T.empty(key)
      else if value.Arr? && AllDocs(value.items) then
        if key == Ascii("$and") then AllMatch(T, value.items, d, n)
        else if key == Ascii("$or") then SomeMatch(T, value.items, d, n)
        else !SomeMatch(T, value.items, d, n)
      else T.anything(key, value, d)
    else if key == Ascii("$comment") then true
    else if key == Ascii("$sampleRate") then T.sample(value, n)
    else if Starts(key, DOLLAR) then T.anything(key, value, d)
    else T.field(key, value, FieldOf(d, Root(key)))
  }

  predicate AllMatch(T: Tests, items: Entries, d: Entries, n: nat)
    requires AllDocs(items)
    decreases items, 1
  {
    items.Entry? ==> Matches(T, items.value.entries, d, n) && AllMatch(T, items.rest, d, n)
  }

  predicate SomeMatch(T: Tests, items: Entries, d: Entries, n: nat)
    requires AllDocs(items)
    decreases items, 1
  {
    items.Entry? && (Matches(T, items.value.entries, d, n) || SomeMatch(T, items.rest, d, n))
  }

  // -------------------------------------------------------------------- analysis

  function FilterMentions(es: Entries): Option<seq<bytes>>
    decreases es, 1
  {
    if es.Nil? then Some([]) else Both(ClauseMentions(es.name, es.value), FilterMentions(es.rest))
  }

  function ClauseMentions(key: bytes, value: Val): Option<seq<bytes>>
    decreases value, 2
  {
    if Combines(key) then if value.Arr? then EachMentions(value.items) else None
    else if Ignored(key) then Some([])
    else if Starts(key, DOLLAR) then None
    else Some([Root(key)])
  }

  function EachMentions(items: Entries): Option<seq<bytes>>
    decreases items, 1
  {
    if items.Nil? then Some([])
    else if !items.value.Doc? then None
    else Both(FilterMentions(items.value.entries), EachMentions(items.rest))
  }

  /** A document cut down to the fields a filter names matches as the whole document does. */
  lemma {:induction false} MatchKept(T: Tests, es: Entries, d: Entries, n: nat, keep: seq<bytes>)
    requires Within(FilterMentions(es), keep)
    ensures Matches(T, es, Keep(d, keep), n) == Matches(T, es, d, n)
    decreases es, 1
  {
    hide Combines, Ignored;
    if es.Entry? {
      WithinBoth(ClauseMentions(es.name, es.value), FilterMentions(es.rest), keep);
      EntryKept(T, es.name, es.value, d, n, keep);
      MatchKept(T, es.rest, d, n, keep);
    }
  }

  lemma {:induction false} EntryKept(T: Tests, key: bytes, value: Val, d: Entries, n: nat, keep: seq<bytes>)
    requires Within(ClauseMentions(key, value), keep)
    ensures EntryMatches(T, key, value, Keep(d, keep), n) == EntryMatches(T, key, value, d, n)
    decreases value, 2
  {
    if Combines(key) {
      EachKept(T, value.items, d, n, keep);
    } else if !Ignored(key) {
      assert Root(key) in [Root(key)];
      FieldOfKeep(d, keep, Root(key));
    }
  }

  lemma {:induction false} EachKept(T: Tests, items: Entries, d: Entries, n: nat, keep: seq<bytes>)
    requires Within(EachMentions(items), keep)
    ensures AllDocs(items)
    ensures AllMatch(T, items, Keep(d, keep), n) == AllMatch(T, items, d, n)
    ensures SomeMatch(T, items, Keep(d, keep), n) == SomeMatch(T, items, d, n)
    decreases items, 1
  {
    if items.Entry? {
      WithinBoth(FilterMentions(items.value.entries), EachMentions(items.rest), keep);
      MatchKept(T, items.value.entries, d, n, keep);
      EachKept(T, items.rest, d, n, keep);
    }
  }

  /** appendFilterRootFields: one key a turn. */
  method AppendFilterRootFields(es: Entries, roots: seq<bytes>) returns (ok: bool, out: seq<bytes>)
    ensures ok <==> FilterMentions(es).Some?
    ensures ok ==> out == AddAll(roots, FilterMentions(es).value)
    decreases es, 1
  {
    hide Combines, Ignored;
    out := roots;
    var left := es;
    while left.Entry?
      invariant left == es || left < es
      invariant FilterMentions(es).Some? <==> FilterMentions(left).Some?
      invariant FilterMentions(left).Some?
                ==> AddAll(roots, FilterMentions(es).value) == AddAll(out, FilterMentions(left).value)
      decreases left
    {
      ghost var before := out;
      if Combines(left.name) {
        if !left.value.Arr? { return false, out; }
        var fine, more := AppendEach(left.value.items, out);
        if !fine { return false, out; }
        out := more;
      } else if Ignored(left.name) {
      } else {
        if Starts(left.name, DOLLAR) { return false, out; }
        AddOne(out, Root(left.name));
        out := AddRoot(out, Root(left.name));
      }
      BothAdds(before, ClauseMentions(left.name, left.value), FilterMentions(left.rest));
      left := left.rest;
    }
    return true, out;
  }

  method AppendEach(items: Entries, roots: seq<bytes>) returns (ok: bool, out: seq<bytes>)
    ensures ok <==> EachMentions(items).Some?
    ensures ok ==> out == AddAll(roots, EachMentions(items).value)
    decreases items, 1
  {
    out := roots;
    var left := items;
    while left.Entry?
      invariant left == items || left < items
      invariant EachMentions(items).Some? <==> EachMentions(left).Some?
      invariant EachMentions(left).Some?
                ==> AddAll(roots, EachMentions(items).value) == AddAll(out, EachMentions(left).value)
      decreases left
    {
      if !left.value.Doc? { return false, out; }
      var fine, more := AppendFilterRootFields(left.value.entries, out);
      if !fine { return false, out; }
      BothAdds(out, FilterMentions(left.value.entries), EachMentions(left.rest));
      out, left := more, left.rest;
    }
    return true, out;
  }

  /** FilterRootFields: a fresh list, in order of first mention. */
  method FilterRootFields(es: Entries) returns (ok: bool, roots: seq<bytes>)
    ensures ok <==> FilterMentions(es).Some?
    ensures ok ==> roots == AddAll([], FilterMentions(es).value) && Distinct(roots)
  {
    ok, roots := AppendFilterRootFields(es, []);
    if ok { AddAllDistinct([], FilterMentions(es).value); }
  }
}
