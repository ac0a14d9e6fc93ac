/** The passes as they run are the steps that runs are made of. */
module IndexSteps {
  import opened Models
  import opened Store
  import opened IndexSpec
  import opened IndexTheorems
  import IndexRuns
  import Indexer

  lemma {:induction false} ScannedEdges(tree: Tree, files: seq<string>)
    requires SetOf(files) == tree.Keys && forall p | p in files :: p in tree
    ensures SetOf(EdgesOf(tree, files)) == DeclEdges(tree)
  {
    forall e | e in DeclEdges(tree) ensures e in EdgesOf(tree, files) {
      var p :| p in tree && e in tree[p].edges;
      assert p in SetOf(files);
    }
  }

  /** What `Indexer.IndexAll` ensures is a full step, whatever the order of the files. */
  lemma {:induction false} IndexAllIsAStep(m: IndexRuns.Moment, tree: Tree, files: seq<string>, work: seq<Node>, clean: bool, uid: EdgeUid, g': Graph)
    requires ValidRepo(tree, work)
    requires SetOf(files) == tree.Keys && forall p | p in files :: p in tree
    requires FullResult(m.g, NodesOf(tree, files), SetOf(EdgesOf(tree, files)), work, clean, uid, g')
    ensures IndexRuns.Next(m, IndexRuns.Full(clean), IndexRuns.Moment(g', tree, work), uid)
  {
    ScannedEdges(tree, files);
    assert IndexRuns.FullStep(m, clean, uid, IndexRuns.Moment(g', tree, work), files);
  }

  /** No entry that git reports as deleted is a file of the repository. */
  predicate DeletedAreGone(tree: Tree, files: seq<Indexer.ChangedFile>) {
    forall f | f in files && f.deleted :: f.path !in tree
  }

  /** The scanned paths are the changed files of the repository. */
  lemma {:induction false} ParsedPaths(tree: Tree, files: seq<Indexer.ChangedFile>)
    requires DeletedAreGone(tree, files)
    ensures SetOf(Indexer.Parsed(tree, files)) == tree.Keys * Indexer.ChangedPaths(files)
  {
    if files != [] {
      var k := |files| - 1;
      assert files == files[..k] + [files[k]];
      assert files[k] in files && forall f | f in files[..k] :: f in files;
      ParsedPaths(tree, files[..k]);
      assert Indexer.ChangedPaths(files) == Indexer.ChangedPaths(files[..k]) + {files[k].path};
      var init := Indexer.Parsed(tree, files[..k]);
      assert SetOf(init + [files[k].path]) == SetOf(init) + {files[k].path};
    }
  }

  /** What `Indexer.IndexChanged` ensures is an incremental step when the change set covers the change
      and neither exception of `IndexTheorems.IncrementalIsFullExactly` occurs. */
  lemma {:induction false} IndexChangedIsAStep(m: IndexRuns.Moment, tree: Tree, files: seq<Indexer.ChangedFile>, work: seq<Node>, uid: EdgeUid, g': Graph)
    requires ValidRepo(tree, work) && DeletedAreGone(tree, files)
    requires Covers(m.tree, m.work, tree, work, Indexer.ChangedPaths(files))
    requires Agreeable(m.tree, tree, work, Indexer.Parsed(tree, files), Indexer.ChangedPaths(files))
    requires files == [] ==> IndexRuns.Moment(g', tree, work) == m
    requires files != [] ==>
      IncResult(m.g, NodesOf(tree, Indexer.Parsed(tree, files)), SetOf(EdgesOf(tree, Indexer.Parsed(tree, files))),
                work, Indexer.ChangedPaths(files), uid, g')
    ensures IndexRuns.Next(m, IndexRuns.Incremental(Indexer.ChangedPaths(files)), IndexRuns.Moment(g', tree, work), uid)
  {
    var changed := Indexer.ChangedPaths(files);
    if files != [] {
      assert files[0].path in changed;
      ParsedPaths(tree, files);
      assert IndexRuns.IncStep(m, changed, uid, IndexRuns.Moment(g', tree, work), Indexer.Parsed(tree, files));
    }
  }

  /** A full pass over the store object takes the run one step on, and the store is in step again. */
  method IndexAllInRun(store: GraphStore, ghost m: IndexRuns.Moment, tree: Tree, files: seq<string>, work: seq<Node>, clean: bool)
      returns (ghost m': IndexRuns.Moment)
    requires store.Valid() && m.g == store.Contents() && IndexRuns.Good(m, store.uid) && ValidRepo(tree, work)
    requires SetOf(files) == tree.Keys && forall p | p in files :: p in tree
    modifies store
    ensures store.Valid() && m' == IndexRuns.Moment(store.Contents(), tree, work)
    ensures IndexRuns.Next(m, IndexRuns.Full(clean), m', store.uid) && IndexRuns.Good(m', store.uid)
  {
    Indexer.IndexAll(store, tree, files, work, clean);
    m' := IndexRuns.Moment(store.Contents(), tree, work);
    IndexAllIsAStep(m, tree, files, work, clean, store.uid, m'.g);
    IndexRuns.NextKeepsGood(m, IndexRuns.Full(clean), m', store.uid);
  }

  /** So does an incremental pass over a change set that covers the change. */
  method IndexChangedInRun(store: GraphStore, ghost m: IndexRuns.Moment, tree: Tree, files: seq<Indexer.ChangedFile>, work: seq<Node>)
      returns (ghost m': IndexRuns.Moment)
    requires store.Valid() && m.g == store.Contents() && IndexRuns.Good(m, store.uid) && ValidRepo(tree, work)
    requires DeletedAreGone(tree, files) && (files == [] ==> tree == m.tree && work == m.work)
    requires Covers(m.tree, m.work, tree, work, Indexer.ChangedPaths(files))
    requires Agreeable(m.tree, tree, work, Indexer.Parsed(tree, files), Indexer.ChangedPaths(files))
    modifies store
    ensures store.Valid() && m' == IndexRuns.Moment(store.Contents(), tree, work)
    ensures IndexRuns.Next(m, IndexRuns.Incremental(Indexer.ChangedPaths(files)), m', store.uid) && IndexRuns.Good(m', store.uid)
  {
    Indexer.IndexChanged(store, tree, files, work);
    m' := IndexRuns.Moment(store.Contents(), tree, work);
    IndexChangedIsAStep(m, tree, files, work, store.uid, m'.g);
    IndexRuns.NextKeepsGood(m, IndexRuns.Incremental(Indexer.ChangedPaths(files)), m', store.uid);
  }
}
