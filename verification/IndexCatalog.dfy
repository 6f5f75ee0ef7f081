/**
 Index creation: which indexes of a request are created, dropped as already there, or
 refused, and why a collection's catalog stays free of clashes.
 */
module IndexCatalog {
  import opened Bytes

  datatype KeyPair = KeyPair(field: string, text: bool, geo2DSphere: bool, geo2D: bool, hashed: bool, descending: bool)

  /** collation is the normalized identity of the index's collation. */
  datatype Index = Index(name: string, key: seq<KeyPair>, collation: string)

  datatype Refusal =
    | EmptyName
    | ReservedIdName
    | ReservedMetadataName
    | IdenticalInRequest
    | NameTaken
    | KeyTaken
    | SecondTextIndex

  datatype Verdict = Create | AlreadyThere | Refuse(why: Refusal)

  datatype Result<+T> = Ok(value: T) | Err(error: Refusal)

  const DEFAULT_INDEX_NAME: string := "_id_"
  const RESERVED_METADATA_INDEX_NAME: string := "__dumbo_metadata__"
  const ID_KEY: string := "_id: 1"

  function Order(p: KeyPair): string {
    if p.text then "\"text\""
    else if p.geo2DSphere then "\"2dsphere\""
    else if p.geo2D then "\"2d\""
    else if p.hashed then "\"hashed\""
    else if p.descending then "-1"
    else "1"
  }

  function FormatKey(key: seq<KeyPair>): string {
    if key == [] then ""
    else
      var first := key[0].field + ": " + Order(key[0]);
      if |key| == 1 then first else first + ", " + FormatKey(key[1..])
  }

  predicate SameKey(a: Index, b: Index) { FormatKey(a.key) == FormatKey(b.key) && a.collation == b.collation }

  predicate IsText(idx: Index) { exists i :: 0 <= i < |idx.key| && idx.key[i].text }

  // -------------------------------------------------------------------- decisions

  /** Against the entries before it in the request, the latest first. */
  function AgainstEarlier(earlier: seq<Index>, idx: Index): Option<Refusal> {
    if earlier == [] then None
    else
      var other := earlier[|earlier| - 1];
      if other.name == idx.name && FormatKey(other.key) == FormatKey(idx.key) then Some(IdenticalInRequest)
      else if idx.name == other.name then Some(NameTaken)
      else if SameKey(idx, other) then Some(KeyTaken)
      else AgainstEarlier(earlier[..|earlier| - 1], idx)
  }

  /** Against the catalog, in its order. */
  function AgainstExisting(existing: seq<Index>, idx: Index): Verdict {
    if existing == [] then Create
    else
      var other := existing[0];
      if (idx.name == other.name && SameKey(idx, other)) || FormatKey(idx.key) == ID_KEY then AlreadyThere
      else if idx.name == other.name then Refuse(NameTaken)
      else if SameKey(idx, other) then Refuse(KeyTaken)
      else AgainstExisting(existing[1..], idx)
  }

  function Named(idx: Index): Option<Refusal> {
    if idx.name == "" then Some(EmptyName)
    else if idx.name == DEFAULT_INDEX_NAME && FormatKey(idx.key) != ID_KEY then Some(ReservedIdName)
    else if idx.name == RESERVED_METADATA_INDEX_NAME then Some(ReservedMetadataName)
    else None
  }

  function Decide(existing: seq<Index>, earlier: seq<Index>, idx: Index): Verdict {
    match Named(idx)
    case Some(why) => Refuse(why)
    case None =>
      match AgainstEarlier(earlier, idx)
      case Some(why) => Refuse(why)
      case None => AgainstExisting(existing, idx)
  }

  /** What the first n entries of a request come to. */
  function Accepted(existing: seq<Index>, req: seq<Index>, n: nat): Result<seq<Index>>
    requires n <= |req|
  {
    if n == 0 then Ok([])
    else
      match Accepted(existing, req, n - 1)
      case Err(e) => Err(e)
      case Ok(created) =>
        match Decide(existing, req[..n - 1], req[n - 1])
        case Refuse(why) => Err(why)
        case AlreadyThere => Ok(created)
        case Create => Ok(created + [req[n - 1]])
  }

  function TextCount(req: seq<Index>): nat {
    if req == [] then 0 else TextCount(req[..|req| - 1]) + (if IsText(req[|req| - 1]) then 1 else 0)
  }

  predicate HasText(s: seq<Index>) { exists i :: 0 <= i < |s| && IsText(s[i]) }

  function Validated(existing: seq<Index>, req: seq<Index>): Result<seq<Index>> {
    match Accepted(existing, req, |req|)
    case Err(e) => Err(e)
    case Ok(created) =>
      if TextCount(req) > 1 || (HasText(existing) && TextCount(req) > 0) then Err(SecondTextIndex) else Ok(created)
  }

  /** validateIndexesForCreation. */
  method ValidateIndexesForCreation(existing: seq<Index>, req: seq<Index>) returns (r: Result<seq<Index>>)
    ensures r == Validated(existing, req)
  {
    hide FormatKey, IsText;
    var created: seq<Index> := [];
    for i := 0 to |req|
      invariant Accepted(existing, req, i) == Ok(created)
    {
      var idx := req[i];
      var named := Named(idx);
      if named.Some? {
        Refused(existing, req, i, named.value);
        return Err(named.value);
      }
      var j := i;
      while j > 0
        invariant 0 <= j <= i
        invariant AgainstEarlier(req[..i], idx) == AgainstEarlier(req[..j], idx)
      {
        j := j - 1;
        var other := req[j];
        assert req[..j + 1][..j] == req[..j] && req[..j + 1][j] == other;
        var why := None;
        if other.name == idx.name && FormatKey(other.key) == FormatKey(idx.key) { why := Some(IdenticalInRequest); }
        else if idx.name == other.name { why := Some(NameTaken); }
        else if SameKey(idx, other) { why := Some(KeyTaken); }
        if why.Some? {
          Refused(existing, req, i, why.value);
          return Err(why.value);
        }
      }
      var identical := false;
      var k := 0;
      while k < |existing| && !identical
        invariant 0 <= k <= |existing|
        invariant if identical then AgainstExisting(existing, idx) == AlreadyThere
                  else AgainstExisting(existing, idx) == AgainstExisting(existing[k..], idx)
        decreases |existing| - k, !identical
      {
        var other := existing[k];
        assert existing[k..][0] == other && existing[k..][1..] == existing[k + 1..];
        if (idx.name == other.name && SameKey(idx, other)) || FormatKey(idx.key) == ID_KEY {
          identical := true;
        } else {
          var why := None;
          if idx.name == other.name { why := Some(NameTaken); }
          else if SameKey(idx, other) { why := Some(KeyTaken); }
          if why.Some? {
            Refused(existing, req, i, why.value);
            return Err(why.value);
          }
          k := k + 1;
        }
      }
      if !identical { created := created + [idx]; }
    }
    var hasText := AnyText(existing);
    var texts := 0;
    for i := 0 to |req|
      invariant texts == TextCount(req[..i])
    {
      assert req[..i + 1][..i] == req[..i];
      var text := IsTextIndex(req[i]);
      if text { texts := texts + 1; }
    }
    assert req[..|req|] == req;
    if texts > 1 || (hasText && texts > 0) { return Err(SecondTextIndex); }
    return Ok(created);
  }

  lemma {:induction false} Refused(existing: seq<Index>, req: seq<Index>, i: nat, why: Refusal)
    requires i < |req| && Accepted(existing, req, i).Ok? && Decide(existing, req[..i], req[i]) == Refuse(why)
    ensures Validated(existing, req) == Err(why)
  {
    hide Decide;
    RefusedFrom(existing, req, i + 1, |req|, why);
  }

  lemma {:induction false} RefusedFrom(existing: seq<Index>, req: seq<Index>, n: nat, m: nat, why: Refusal)
    requires n <= m <= |req| && Accepted(existing, req, n) == Err(why)
    ensures Accepted(existing, req, m) == Err(why)
    decreases m - n
  {
    hide Decide;
    if n < m { RefusedFrom(existing, req, n, m - 1, why); }
  }

  method IsTextIndex(idx: Index) returns (text: bool)
    ensures text == IsText(idx)
  {
    for i := 0 to |idx.key|
      invariant forall k :: 0 <= k < i ==> !idx.key[k].text
    {
      if idx.key[i].text { return true; }
    }
    return false;
  }

  method AnyText(s: seq<Index>) returns (text: bool)
    ensures text == HasText(s)
  {
    for i := 0 to |s|
      invariant forall k :: 0 <= k < i ==> !IsText(s[k])
    {
      var one := IsTextIndex(s[i]);
      if one { return true; }
    }
    return false;
  }

  // --------------------------------------------------------------- the invariant

  predicate Clash(a: Index, b: Index) { a.name == b.name || SameKey(a, b) }

  /** Distinct names, distinct keys under each collation, at most one text index. */
  ghost predicate CatalogOk(s: seq<Index>) {
    (forall i, j :: 0 <= i < j < |s| ==> !Clash(s[i], s[j]))
    && (forall i, j :: 0 <= i < j < |s| ==> !(IsText(s[i]) && IsText(s[j])))
  }

  lemma {:induction false} ClearOfEarlier(earlier: seq<Index>, idx: Index)
    ensures AgainstEarlier(earlier, idx).None? <==> forall i :: 0 <= i < |earlier| ==> !Clash(earlier[i], idx)
  {
    hide FormatKey;
    if earlier != [] {
      ClearOfEarlier(earlier[..|earlier| - 1], idx);
      assert forall i :: 0 <= i < |earlier| - 1 ==> earlier[..|earlier| - 1][i] == earlier[i];
    }
  }

  /** In a sound catalog an index is already there, clashes, or is clear of every entry. */
  lemma {:induction false} ClearOfExisting(existing: seq<Index>, idx: Index)
    ensures AgainstExisting(existing, idx) == Create
       <==> (forall i :: 0 <= i < |existing| ==> !Clash(existing[i], idx))
            && (FormatKey(idx.key) == ID_KEY ==> existing == [])
  {
    hide FormatKey;
    if existing != [] {
      ClearOfExisting(existing[1..], idx);
      assert forall i :: 0 < i < |existing| ==> existing[1..][i - 1] == existing[i];
      assert forall i :: 0 <= i < |existing| - 1 ==> existing[1..][i] == existing[i + 1];
    }
  }

  /** What is created comes from the request, in its order, clear of the catalog and of itself. */
  lemma {:induction false} AcceptedClear(existing: seq<Index>, req: seq<Index>, n: nat)
    requires n <= |req| && Accepted(existing, req, n).Ok?
    ensures forall x :: x in Accepted(existing, req, n).value ==> x in req[..n]
    ensures forall i, k :: 0 <= i < |Accepted(existing, req, n).value| && 0 <= k < |existing|
                           ==> !Clash(existing[k], Accepted(existing, req, n).value[i])
    ensures forall i, j :: 0 <= i < j < |Accepted(existing, req, n).value|
                           ==> !Clash(Accepted(existing, req, n).value[i], Accepted(existing, req, n).value[j])
    ensures |Accepted(existing, req, n).value| <= n
  {
    hide FormatKey, Clash;
    if n > 0 {
      AcceptedClear(existing, req, n - 1);
      var idx, before := req[n - 1], Accepted(existing, req, n - 1).value;
      ClearOfEarlier(req[..n - 1], idx);
      ClearOfExisting(existing, idx);
      assert req[..n] == req[..n - 1] + [idx];
      forall i | 0 <= i < |before| ensures !Clash(before[i], idx) {
        assert before[i] in req[..n - 1];
      }
    }
  }

  lemma {:induction false} CreatedTexts(existing: seq<Index>, req: seq<Index>, n: nat)
    requires n <= |req| && Accepted(existing, req, n).Ok?
    ensures TextCount(Accepted(existing, req, n).value) <= TextCount(req[..n])
  {
    hide IsText, Decide;
    if n > 0 {
      CreatedTexts(existing, req, n - 1);
      assert req[..n][..n - 1] == req[..n - 1];
      var before := Accepted(existing, req, n - 1).value;
      assert (before + [req[n - 1]])[..|before|] == before;
    }
  }

  lemma {:induction false} FewTexts(s: seq<Index>)
    ensures HasText(s) <==> TextCount(s) > 0
    ensures TextCount(s) <= 1 ==> forall i, j :: 0 <= i < j < |s| ==> !(IsText(s[i]) && IsText(s[j]))
  {
    hide IsText;
    if s != [] {
      var init := s[..|s| - 1];
      FewTexts(init);
      assert forall i :: 0 <= i < |init| ==> init[i] == s[i];
      if HasText(init) {
        var i :| 0 <= i < |init| && IsText(init[i]);
        assert IsText(s[i]);
      }
    }
  }

  /** For every request, what the catalog holds afterwards is as free of clashes as before. */
  lemma CatalogStaysOk(existing: seq<Index>, req: seq<Index>)
    requires CatalogOk(existing) && Validated(existing, req).Ok?
    ensures CatalogOk(existing + Validated(existing, req).value)
  {
    hide FormatKey, IsText, Clash, Accepted;
    var created := Validated(existing, req).value;
    var all := existing + created;
    AcceptedClear(existing, req, |req|);
    CreatedTexts(existing, req, |req|);
    assert req[..|req|] == req;
    FewTexts(created);
    FewTexts(existing);
    forall i, j | 0 <= i < j < |all| ensures !Clash(all[i], all[j]) && !(IsText(all[i]) && IsText(all[j])) {
      if j < |existing| {
        assert all[i] == existing[i] && all[j] == existing[j];
      } else if i < |existing| {
        assert all[i] == existing[i] && all[j] == created[j - |existing|];
        if IsText(existing[i]) { assert HasText(existing); }
        if IsText(created[j - |existing|]) { assert HasText(created); }
      } else {
        assert all[i] == created[i - |existing|] && all[j] == created[j - |existing|];
      }
    }
  }

  // ------------------------------------------------------------ asking a second time

  predicate Same(a: Index, b: Index) { a.name == b.name && SameKey(a, b) }

  /** The catalog has the index, or has any index and the request is for the one on _id. */
  ghost predicate Holds(existing: seq<Index>, idx: Index) {
    (exists i :: 0 <= i < |existing| && Same(idx, existing[i])) || (FormatKey(idx.key) == ID_KEY && existing != [])
  }

  lemma {:induction false} ThereMeansHolds(existing: seq<Index>, idx: Index)
    requires AgainstExisting(existing, idx) == AlreadyThere
    ensures Holds(existing, idx)
  {
    hide FormatKey;
    if !Same(idx, existing[0]) && FormatKey(idx.key) != ID_KEY {
      ThereMeansHolds(existing[1..], idx);
      var i :| 0 <= i < |existing[1..]| && Same(idx, existing[1..][i]);
      assert existing[i + 1] == existing[1..][i];
    }
  }

  lemma {:induction false} HoldsMeansThere(existing: seq<Index>, idx: Index)
    requires Holds(existing, idx)
    requires forall i, j :: 0 <= i < j < |existing| ==> !Clash(existing[i], existing[j])
    ensures AgainstExisting(existing, idx) == AlreadyThere
  {
    hide FormatKey;
    if !Same(idx, existing[0]) && FormatKey(idx.key) != ID_KEY {
      var k :| 0 <= k < |existing| && Same(idx, existing[k]);
      assert !Clash(existing[0], existing[k]);
      assert Same(idx, existing[1..][k - 1]);
      assert forall i, j :: 0 <= i < j < |existing| - 1
                            ==> existing[1..][i] == existing[i + 1] && existing[1..][j] == existing[j + 1];
      HoldsMeansThere(existing[1..], idx);
    }
  }

  /** Everything an accepted request asked for is in the catalog afterwards. */
  lemma {:induction false} AcceptedHolds(existing: seq<Index>, req: seq<Index>, n: nat, i: nat)
    requires i < n <= |req| && Accepted(existing, req, n).Ok?
    ensures Holds(existing + Accepted(existing, req, n).value, req[i])
    ensures Named(req[i]).None? && AgainstEarlier(req[..i], req[i]).None?
  {
    hide FormatKey, AgainstExisting, AgainstEarlier, Named;
    var before := Accepted(existing, req, n - 1).value;
    var created := Accepted(existing, req, n).value;
    if i < n - 1 {
      AcceptedHolds(existing, req, n - 1, i);
      HoldsMore(existing + before, created[|before|..], req[i]);
      assert existing + created == existing + before + created[|before|..];
    } else if AgainstExisting(existing, req[i]) == AlreadyThere {
      ThereMeansHolds(existing, req[i]);
      HoldsMore(existing, created, req[i]);
    } else {
      var all := existing + created;
      assert all[|all| - 1] == req[i];
      assert Same(req[i], all[|all| - 1]);
    }
  }

  lemma HoldsMore(existing: seq<Index>, more: seq<Index>, idx: Index)
    requires Holds(existing, idx)
    ensures Holds(existing + more, idx)
  {
    hide FormatKey;
    if i :| 0 <= i < |existing| && Same(idx, existing[i]) {
      assert (existing + more)[i] == existing[i];
    }
  }

  lemma {:induction false} AcceptedAgain(all: seq<Index>, req: seq<Index>, n: nat)
    requires n <= |req| && CatalogOk(all)
    requires forall i :: 0 <= i < |req|
                         ==> Holds(all, req[i]) && Named(req[i]).None? && AgainstEarlier(req[..i], req[i]).None?
    ensures Accepted(all, req, n) == Ok([])
  {
    hide FormatKey, AgainstExisting, AgainstEarlier, Named, Holds, Clash, IsText;
    if n > 0 {
      AcceptedAgain(all, req, n - 1);
      HoldsMeansThere(all, req[n - 1]);
    }
  }

  /** The request is for a text index that the catalog does not have. */
  ghost predicate NewText(existing: seq<Index>, req: seq<Index>) {
    exists i :: 0 <= i < |req| && IsText(req[i]) && !Holds(existing, req[i])
  }

  /** What an accepted request asks for is created exactly where the catalog does not have it. */
  lemma {:induction false} CreatedIffMissing(existing: seq<Index>, req: seq<Index>, n: nat)
    requires n <= |req| && Accepted(existing, req, n).Ok?
    ensures forall i :: 0 <= i < n && !Holds(existing, req[i]) ==> req[i] in Accepted(existing, req, n).value
    ensures forall x :: x in Accepted(existing, req, n).value
                        ==> exists i :: 0 <= i < n && req[i] == x && !Holds(existing, req[i])
  {
    hide FormatKey, AgainstExisting, AgainstEarlier, Named, Holds;
    if n > 0 {
      CreatedIffMissing(existing, req, n - 1);
      CreateMeansMissing(existing, req[n - 1]);
      forall x | x in Accepted(existing, req, n).value
        ensures exists i :: 0 <= i < n && req[i] == x && !Holds(existing, req[i])
      {
        if x in Accepted(existing, req, n - 1).value {
          var i :| 0 <= i < n - 1 && req[i] == x && !Holds(existing, req[i]);
        } else {
          assert req[n - 1] == x;
        }
      }
    }
  }

  lemma CreateMeansMissing(existing: seq<Index>, idx: Index)
    ensures AgainstExisting(existing, idx) == Create ==> !Holds(existing, idx)
    ensures AgainstExisting(existing, idx) == AlreadyThere ==> Holds(existing, idx)
  {
    hide FormatKey, AgainstExisting;
    ClearOfExisting(existing, idx);
    if AgainstExisting(existing, idx) == AlreadyThere {
      ThereMeansHolds(existing, idx);
    }
  }

  lemma NewTextIsThere(existing: seq<Index>, req: seq<Index>)
    requires Validated(existing, req).Ok?
    ensures TextCount(req) > 0 && HasText(existing + Validated(existing, req).value) <==> NewText(existing, req)
  {
    hide FormatKey, Accepted, Holds, IsText, TextCount;
    var created := Validated(existing, req).value;
    var all := existing + created;
    CreatedIffMissing(existing, req, |req|);
    FewTexts(req);
    if TextCount(req) > 0 && HasText(all) {
      var k :| 0 <= k < |all| && IsText(all[k]);
      assert k >= |existing| && all[k] == created[k - |existing|];
      assert all[k] in created;
    }
    if NewText(existing, req) {
      var i :| 0 <= i < |req| && IsText(req[i]) && !Holds(existing, req[i]);
      var k :| 0 <= k < |created| && created[k] == req[i];
      assert all[|existing| + k] == created[k];
    }
  }

  /** Repeating an accepted request creates nothing, and is refused exactly where it created a text index. */
  lemma AskingAgain(existing: seq<Index>, req: seq<Index>)
    requires CatalogOk(existing) && Validated(existing, req).Ok?
    ensures var all := existing + Validated(existing, req).value;
            Validated(all, req) == if NewText(existing, req) then Err(SecondTextIndex) else Ok([])
  {
    hide FormatKey, AgainstEarlier, Named, Holds, CatalogOk, Accepted, IsText, NewText;
    var all := existing + Validated(existing, req).value;
    CatalogStaysOk(existing, req);
    forall i | 0 <= i < |req|
      ensures Holds(all, req[i]) && Named(req[i]).None? && AgainstEarlier(req[..i], req[i]).None?
    {
      AcceptedHolds(existing, req, |req|, i);
    }
    AcceptedAgain(all, req, |req|);
    NewTextIsThere(existing, req);
  }

  function Ascending(field: string): KeyPair { KeyPair(field, false, false, false, false, false) }

  /**
   Keys are compared as they are printed, and a field name may look like the print of
   a key: asked for a text index on a, the catalog that has a plain index on the field
   named like that key takes it for the same and creates nothing.
   */
  lemma PrintedAlike(name: string, collation: string)
    requires Named(Index(name, [Ascending("a: \"text\", b")], collation)).None?
    ensures var plain := Index(name, [Ascending("a: \"text\", b")], collation);
            var text := Index(name, [KeyPair("a", true, false, false, false, false), Ascending("b")], collation);
            CatalogOk([plain]) && !HasText([plain]) && IsText(text) && Validated([plain], [text]) == Ok([])
  {
    var p := [Ascending("a: \"text\", b")];
    var t := [KeyPair("a", true, false, false, false, false), Ascending("b")];
    var plain, text := Index(name, p, collation), Index(name, t, collation);
    assert t[1..] == [Ascending("b")];
    assert FormatKey(t[1..]) == "b" + ": " + "1";
    assert FormatKey(t) == "a" + ": " + "\"text\"" + ", " + FormatKey(t[1..]);
    assert FormatKey(p) == "a: \"text\", b" + ": " + "1";
    assert FormatKey(p) == FormatKey(t);
    assert t[0].text && !p[0].text;
    assert [text][..1] == [text] && [text][..0] == [] && [plain][0] == plain;
    assert Decide([plain], [], text) == AlreadyThere;
    assert Accepted([plain], [text], 0) == Ok([]);
    assert Accepted([plain], [text], 1) == Ok([]);
    assert TextCount([text]) == 1;
  }
}
