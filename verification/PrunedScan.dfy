/**
 Pruning from the stored bytes to the result: a scan that decodes only the fields the
 analysis lists gives the pipeline what a scan that decodes everything gives it.
 */
module PrunedScan {
  import opened Bytes
  import opened RawCodec
  import opened FieldRoots
  import opened Expressions
  import opened Projections
  import opened Pipelines

  predicate Readable(raws: seq<bytes>) {
    forall i :: 0 <= i < |raws| ==> Decode(raws[i]).Good?
  }

  /** An empty list of fields is passed on as none, which decodes everything. */
  function Wanted(roots: seq<bytes>): Option<seq<bytes>> { if roots == [] then None else Some(roots) }

  /** Documents that do not decode are left out. */
  function Scan(raws: seq<bytes>, want: Option<seq<bytes>>): seq<Entries> {
    if raws == [] then []
    else
      var first := ParseDoc(raws[0], false, 1, want);
      (if first.Good? then [first.value] else []) + Scan(raws[1..], want)
  }

  lemma {:induction false} ScanIsCut(raws: seq<bytes>, roots: seq<bytes>)
    requires Readable(raws)
    ensures Scan(raws, Some(roots)) == Cut(Scan(raws, None), roots)
  {
    hide ParseDoc;
    if raws != [] {
      assert Decode(raws[0]).Good?;
      ProjectionIsFilter(raws[0], 1, roots);
      forall i | 0 <= i < |raws[1..]| ensures Decode(raws[1..][i]).Good? { assert raws[1..][i] == raws[i + 1]; }
      ScanIsCut(raws[1..], roots);
      var d, more := Decode(raws[0]).value, Scan(raws[1..], None);
      assert Cut([d] + more, roots) == [Keep(d, roots)] + Cut(more, roots);
    }
  }

  /** A scan for the fields listed reads what pruning the whole documents gives. */
  lemma ScanIsPruned(raws: seq<bytes>, roots: seq<bytes>)
    requires Readable(raws)
    ensures Scan(raws, Wanted(roots)) == Pruned(Scan(raws, None), roots)
  {
    hide Scan, Cut, Readable;
    if roots != [] { ScanIsCut(raws, roots); }
  }

  lemma PipelineOverScan(E: Engine, pipeline: seq<Val>, raws: seq<bytes>)
    requires Readable(raws) && Prunable(E, pipeline)
    ensures Produce(E, pipeline, Scan(raws, Wanted(Listed(PipelineRoots(pipeline)))))
            == Produce(E, pipeline, Scan(raws, None))
  {
    hide Produce, Scan, PipelineRoots, Readable, Pruned, Listed, EndNeedsOnly, Ending;
    ScanIsPruned(raws, Listed(PipelineRoots(pipeline)));
    PruningKeepsMeaning(E, pipeline, Scan(raws, None));
  }

  lemma FindOverScan(E: Engine, q: FindParams, raws: seq<bytes>)
    requires Readable(raws) && FindPrunable(E, q)
    ensures Find(E, q, Scan(raws, Wanted(Listed(FindRoots(q))))) == Find(E, q, Scan(raws, None))
  {
    hide Find, Scan, FindRoots, Readable, Listed, ViewNeedsOnly, Cut;
    ScanIsPruned(raws, Listed(FindRoots(q)));
    FindPruningKeepsMeaning(E, q, Scan(raws, None));
  }
}
