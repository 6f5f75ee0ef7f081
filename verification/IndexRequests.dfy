/**
 Which index requests are accepted, said of the request and the catalog alone, and what
 the printed form by which keys are compared can tell apart.
 */
module IndexRequests {
  import opened Bytes
  import opened IndexCatalog

  // -------------------------------------------------------------- printed keys

  predicate Lacks(s: string, c: char) { forall i :: 0 <= i < |s| ==> s[i] != c }

  /** The two print alike: one field, and of one kind, the first kind set counting. */
  predicate SamePart(p: KeyPair, q: KeyPair) {
    p.field == q.field && p.text == q.text
    && (p.text
        || (p.geo2DSphere == q.geo2DSphere
            && (p.geo2DSphere
                || (p.geo2D == q.geo2D
                    && (p.geo2D || (p.hashed == q.hashed && (p.hashed || p.descending == q.descending)))))))
  }

  function Part(p: KeyPair): string { p.field + ": " + Order(p) }

  lemma OrdersDiffer(p: KeyPair)
    ensures Lacks(Order(p), ':') && Lacks(Order(p), ',')
    ensures p.text ==> |Order(p)| == 6 && Order(p)[1] == 't'
    ensures !p.text && p.geo2DSphere ==> |Order(p)| == 10
    ensures !p.text && !p.geo2DSphere && p.geo2D ==> |Order(p)| == 4
    ensures !p.text && !p.geo2DSphere && !p.geo2D && p.hashed ==> |Order(p)| == 8
    ensures !p.text && !p.geo2DSphere && !p.geo2D && !p.hashed && p.descending ==> Order(p) == "-1"
    ensures !p.text && !p.geo2DSphere && !p.geo2D && !p.hashed && !p.descending ==> Order(p) == "1"
  {
  }

  /** The last colon is the one before the order. */
  lemma ColonNoLater(f: string, o: string, g: string, q: string)
    requires Lacks(o, ':') && f + ": " + o == g + ": " + q
    ensures |g| <= |f|
  {
    var s := f + ": " + o;
    assert s[|g|] == ':' && s[|f| + 1] == ' ';
    assert forall k :: |f| + 2 <= k < |s| ==> s[k] == o[k - |f| - 2];
  }

  lemma LastColon(f: string, o: string, g: string, q: string)
    requires Lacks(o, ':') && Lacks(q, ':') && f + ": " + o == g + ": " + q
    ensures f == g && o == q
  {
    var s := f + ": " + o;
    ColonNoLater(f, o, g, q);
    ColonNoLater(g, q, f, o);
    assert s[..|f|] == f && s[..|g|] == g && s[|f| + 2..] == o && s[|g| + 2..] == q;
  }

  lemma PartsTell(p: KeyPair, q: KeyPair)
    ensures Part(p) == Part(q) <==> SamePart(p, q)
  {
    OrdersDiffer(p);
    OrdersDiffer(q);
    if Part(p) == Part(q) {
      LastColon(p.field, Order(p), q.field, Order(q));
    }
  }

  lemma PartLacksComma(p: KeyPair)
    requires Lacks(p.field, ',')
    ensures Lacks(Part(p), ',')
  {
    OrdersDiffer(p);
  }

  /** The first comma ends the first part. */
  lemma FirstComma(x: string, r: string, y: string, t: string)
    requires Lacks(x, ',') && Lacks(y, ',') && x + ", " + r == y + ", " + t
    ensures x == y && r == t
  {
    var s := x + ", " + r;
    assert s[|x|] == ',' && s[|y|] == ',';
    assert forall i :: 0 <= i < |x| ==> s[i] == x[i];
    assert forall i :: 0 <= i < |y| ==> s[i] == y[i];
    assert |x| == |y|;
    assert s[..|x|] == x && s[..|y|] == y && s[|x| + 2..] == r && s[|y| + 2..] == t;
  }

  predicate Plain(key: seq<KeyPair>) { forall i :: 0 <= i < |key| ==> Lacks(key[i].field, ',') }

  /** Keys whose field names have no comma print alike exactly when they are the same field by field. */
  lemma {:induction false} PrintTells(a: seq<KeyPair>, b: seq<KeyPair>)
    requires Plain(a) && Plain(b)
    ensures FormatKey(a) == FormatKey(b) <==> |a| == |b| && forall i :: 0 <= i < |a| ==> SamePart(a[i], b[i])
    decreases |a|
  {
    hide Order, SamePart;
    if a == [] || b == [] {
      if a != [] { assert |Part(a[0])| > 0 && |FormatKey(a)| > 0; }
      if b != [] { assert |Part(b[0])| > 0 && |FormatKey(b)| > 0; }
    } else {
      PartsTell(a[0], b[0]);
      PartLacksComma(a[0]);
      PartLacksComma(b[0]);
      var x, y, r, t := Part(a[0]), Part(b[0]), a[1..], b[1..];
      assert forall i :: 0 <= i < |r| ==> r[i] == a[i + 1];
      assert forall i :: 0 <= i < |t| ==> t[i] == b[i + 1];
      if |a| == 1 && |b| > 1 {
        assert (y + ", " + FormatKey(t))[|y|] == ',';
      } else if |b| == 1 && |a| > 1 {
        assert (x + ", " + FormatKey(r))[|x|] == ',';
      } else if |a| > 1 {
        PrintTells(r, t);
        if FormatKey(a) == FormatKey(b) { FirstComma(x, FormatKey(r), y, FormatKey(t)); }
        RestSame(a, b);
      }
    }
  }

  lemma RestSame(a: seq<KeyPair>, b: seq<KeyPair>)
    requires |a| == |b| > 0 || (|a| > 0 && |b| > 0)
    ensures (|a| == |b| && forall i :: 0 <= i < |a| ==> SamePart(a[i], b[i]))
       <==> SamePart(a[0], b[0]) && |a[1..]| == |b[1..]|
            && forall i :: 0 <= i < |a[1..]| ==> SamePart(a[1..][i], b[1..][i])
  {
    hide SamePart;
    if |a| == |b| && SamePart(a[0], b[0]) && forall i :: 0 <= i < |a[1..]| ==> SamePart(a[1..][i], b[1..][i]) {
      forall i | 0 <= i < |a| ensures SamePart(a[i], b[i]) {
        if i > 0 { assert a[1..][i - 1] == a[i] && b[1..][i - 1] == b[i]; }
      }
    }
  }

  // ------------------------------------------------------------ accepted requests

  /** Neither empty nor reserved; _id_ is for the ascending key on _id. */
  predicate NameOk(idx: Index) {
    idx.name != "" && idx.name != "__dumbo_metadata__" && (idx.name == "_id_" ==> FormatKey(idx.key) == "_id: 1")
  }

  lemma NamedIs(idx: Index)
    ensures Named(idx).None? <==> NameOk(idx)
  {
    hide FormatKey;
  }

  ghost predicate Placeable(existing: seq<Index>, idx: Index) {
    Holds(existing, idx) || forall k :: 0 <= k < |existing| ==> !Clash(existing[k], idx)
  }

  /** What an accepted entry is like: well named, clear of those before it, and held by the catalog or clear of it. */
  ghost predicate EntryOk(existing: seq<Index>, req: seq<Index>, i: nat)
    requires i < |req|
  {
    NameOk(req[i]) && (forall j :: 0 <= j < i ==> !Clash(req[j], req[i])) && Placeable(existing, req[i])
  }

  lemma DecideIs(existing: seq<Index>, req: seq<Index>, i: nat)
    requires CatalogOk(existing) && i < |req|
    ensures Decide(existing, req[..i], req[i]).Refuse? <==> !EntryOk(existing, req, i)
  {
    hide FormatKey, AgainstEarlier, AgainstExisting, Clash, IsText, Named, NameOk, Holds;
    var idx := req[i];
    NamedIs(idx);
    ClearOfEarlier(req[..i], idx);
    assert forall j :: 0 <= j < i ==> req[..i][j] == req[j];
    ClearOfExisting(existing, idx);
    CreateMeansMissing(existing, idx);
    if Holds(existing, idx) {
      HoldsMeansThere(existing, idx);
    } else {
      NotHeld(existing, idx);
    }
  }

  lemma NotHeld(existing: seq<Index>, idx: Index)
    requires !Holds(existing, idx)
    ensures FormatKey(idx.key) == ID_KEY ==> existing == []
  {
  }

  lemma {:induction false} AcceptedIff(existing: seq<Index>, req: seq<Index>, n: nat)
    requires CatalogOk(existing) && n <= |req|
    ensures Accepted(existing, req, n).Ok? <==> forall i :: 0 <= i < n ==> EntryOk(existing, req, i)
  {
    hide CatalogOk, Decide, EntryOk;
    if n > 0 {
      AcceptedIff(existing, req, n - 1);
      DecideIs(existing, req, n - 1);
    }
  }

  /**
   A request is accepted if and only if each of its entries is, and it asks for no text
   index beside another, in the request or in the catalog.
   */
  lemma RequestAccepted(existing: seq<Index>, req: seq<Index>)
    requires CatalogOk(existing)
    ensures Validated(existing, req).Ok?
       <==> (forall i :: 0 <= i < |req| ==> EntryOk(existing, req, i))
            && TextCount(req) <= 1 && !(HasText(existing) && HasText(req))
  {
    hide CatalogOk, EntryOk, IsText;
    AcceptedIff(existing, req, |req|);
    FewTexts(req);
  }

  /** The reason a clash is refused for. */
  function Reason(other: Index, idx: Index): Refusal { if other.name == idx.name then NameTaken else KeyTaken }

  /** Within a request the latest clash gives the reason, and a full match has its own. */
  lemma {:induction false} EarlierReason(earlier: seq<Index>, idx: Index) returns (j: nat)
    requires AgainstEarlier(earlier, idx).Some?
    ensures j < |earlier| && Clash(earlier[j], idx)
    ensures forall k :: j < k < |earlier| ==> !Clash(earlier[k], idx)
    ensures AgainstEarlier(earlier, idx).value
         == if earlier[j].name == idx.name && FormatKey(earlier[j].key) == FormatKey(idx.key) then IdenticalInRequest
            else Reason(earlier[j], idx)
  {
    hide FormatKey;
    var n := |earlier| - 1;
    if Clash(earlier[n], idx) {
      j := n;
    } else {
      j := EarlierReason(earlier[..n], idx);
    }
  }

  /** Against the catalog the first clash does. */
  lemma {:induction false} ExistingReason(existing: seq<Index>, idx: Index) returns (j: nat)
    requires AgainstExisting(existing, idx).Refuse?
    ensures j < |existing| && Clash(existing[j], idx) && !Same(idx, existing[j])
    ensures forall k :: 0 <= k < j ==> !Clash(existing[k], idx)
    ensures AgainstExisting(existing, idx) == Refuse(Reason(existing[j], idx))
  {
    hide FormatKey;
    if Clash(existing[0], idx) {
      j := 0;
    } else {
      j := ExistingReason(existing[1..], idx);
      assert forall k :: 0 <= k < |existing| - 1 ==> existing[1..][k] == existing[k + 1];
      forall k | 0 <= k < j + 1 ensures !Clash(existing[k], idx) {
        if k > 0 { assert existing[1..][k - 1] == existing[k]; }
      }
      j := j + 1;
    }
  }

  /** An accepted index named _id_ is the ascending one on _id, where field names have no comma. */
  lemma IdIndexIsOnId(existing: seq<Index>, req: seq<Index>, i: nat)
    requires CatalogOk(existing) && Validated(existing, req).Ok? && i < |req|
    requires req[i].name == "_id_" && Plain(req[i].key)
    ensures |req[i].key| == 1 && SamePart(req[i].key[0], Ascending("_id"))
  {
    hide CatalogOk, FormatKey, Holds, SamePart;
    RequestAccepted(existing, req);
    var id := [Ascending("_id")];
    assert EntryOk(existing, req, i);
    IdPrints();
    PrintTells(req[i].key, id);
  }

  lemma IdPrints()
    ensures FormatKey([Ascending("_id")]) == "_id: 1" && Plain([Ascending("_id")])
  {
    assert "_id" + ": " + "1" == "_id: 1";
  }
}
