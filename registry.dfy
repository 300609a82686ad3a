/** The algorithm registry: a map from an algorithm's id to its executor,
    filled with the ten executors on creation and queried by id, as a
    whole, or by category. */
module Algorithms {
  import opened Types
  import BubbleSort
  import MergeSort
  import QuickSort
  import HeapSort
  import CountingSort
  import LinearSearch
  import BinarySearch
  import Dfs
  import Bfs
  import HashLookup

  /** The executor types of the sorting and searching packages. */
  datatype ExecutorKind =
    | BubbleSortExecutor | MergeSortExecutor | QuickSortExecutor | HeapSortExecutor | CountingSortExecutor
    | LinearSearchExecutor | BinarySearchExecutor | DfsExecutor | BfsExecutor | HashLookupExecutor

  /** An AlgorithmExecutor: its type, and the `metadata` field its
      constructor fills in and GetMetadata returns. */
  datatype Executor = Executor(kind: ExecutorKind, metadata: Descriptor)

  /** NewBubbleSort: the executor, its `metadata` field filled in with
      BubbleSort.Metadata(); the contract keeps the id and category. */
  method NewBubbleSort() returns (e: Executor)
    ensures e.kind == BubbleSortExecutor && e.metadata.id == "bubble_sort" && e.metadata.category == Sorting
  {
    e := Executor(BubbleSortExecutor, BubbleSort.Metadata());
  }

  /** NewMergeSort: the executor, its `metadata` field filled in with
      MergeSort.Metadata(); the contract keeps the id and category. */
  method NewMergeSort() returns (e: Executor)
    ensures e.kind == MergeSortExecutor && e.metadata.id == "merge_sort" && e.metadata.category == Sorting
  {
    e := Executor(MergeSortExecutor, MergeSort.Metadata());
  }

  /** NewQuickSort: the executor, its `metadata` field filled in with
      QuickSort.Metadata(); the contract keeps the id and category. */
  method NewQuickSort() returns (e: Executor)
    ensures e.kind == QuickSortExecutor && e.metadata.id == "quick_sort" && e.metadata.category == Sorting
  {
    e := Executor(QuickSortExecutor, QuickSort.Metadata());
  }

  /** NewHeapSort: the executor, its `metadata` field filled in with
      HeapSort.Metadata(); the contract keeps the id and category. */
  method NewHeapSort() returns (e: Executor)
    ensures e.kind == HeapSortExecutor && e.metadata.id == "heap_sort" && e.metadata.category == Sorting
  {
    e := Executor(HeapSortExecutor, HeapSort.Metadata());
  }

  /** NewCountingSort: the executor, its `metadata` field filled in with
      CountingSort.Metadata(); the contract keeps the id and category. */
  method NewCountingSort() returns (e: Executor)
    ensures e.kind == CountingSortExecutor && e.metadata.id == "counting_sort" && e.metadata.category == Sorting
  {
    e := Executor(CountingSortExecutor, CountingSort.Metadata());
  }

  /** NewLinearSearch: the executor, its `metadata` field filled in with
      LinearSearch.Metadata(); the contract keeps the id and category. */
  method NewLinearSearch() returns (e: Executor)
    ensures e.kind == LinearSearchExecutor && e.metadata.id == "linear_search" && e.metadata.category == Searching
  {
    e := Executor(LinearSearchExecutor, LinearSearch.Metadata());
  }

  /** NewBinarySearch: the executor, its `metadata` field filled in with
      BinarySearch.Metadata(); the contract keeps the id and category. */
  method NewBinarySearch() returns (e: Executor)
    ensures e.kind == BinarySearchExecutor && e.metadata.id == "binary_search" && e.metadata.category == Searching
  {
    e := Executor(BinarySearchExecutor, BinarySearch.Metadata());
  }

  /** NewDFS: the executor, its `metadata` field filled in with
      Dfs.Metadata(); the contract keeps the id and category. */
  method NewDFS() returns (e: Executor)
    ensures e.kind == DfsExecutor && e.metadata.id == "dfs" && e.metadata.category == Searching
  {
    e := Executor(DfsExecutor, Dfs.Metadata());
  }

  /** NewBFS: the executor, its `metadata` field filled in with
      Bfs.Metadata(); the contract keeps the id and category. */
  method NewBFS() returns (e: Executor)
    ensures e.kind == BfsExecutor && e.metadata.id == "bfs" && e.metadata.category == Searching
  {
    e := Executor(BfsExecutor, Bfs.Metadata());
  }

  /** NewHashLookup: the executor, its `metadata` field filled in with
      HashLookup.Metadata(); the contract keeps the id and category. */
  method NewHashLookup() returns (e: Executor)
    ensures e.kind == HashLookupExecutor && e.metadata.id == "hash_lookup" && e.metadata.category == Searching
  {
    e := Executor(HashLookupExecutor, HashLookup.Metadata());
  }

  /** The id each executor type's metadata reports. */
  function IdOf(k: ExecutorKind): string
  {
    match k
    case BubbleSortExecutor => "bubble_sort"
    case MergeSortExecutor => "merge_sort"
    case QuickSortExecutor => "quick_sort"
    case HeapSortExecutor => "heap_sort"
    case CountingSortExecutor => "counting_sort"
    case LinearSearchExecutor => "linear_search"
    case BinarySearchExecutor => "binary_search"
    case DfsExecutor => "dfs"
    case BfsExecutor => "bfs"
    case HashLookupExecutor => "hash_lookup"
  }

  /** The category each executor type's metadata reports. */
  function CategoryOf(k: ExecutorKind): Category
  {
    match k
    case BubbleSortExecutor | MergeSortExecutor | QuickSortExecutor | HeapSortExecutor | CountingSortExecutor => Sorting
    case _ => Searching
  }

  /** The ids held by `m` whose executor reports category `c`. */
  ghost function CategoryIds(m: map<string, Executor>, c: Category): (ids: set<string>)
    ensures ids <= m.Keys
  {
    set id | id in m && m[id].metadata.category == c
  }

  /** `ds` lists the descriptors of the executors `m` holds under `ids`,
      each exactly once, in some order. */
  ghost predicate Enumerates(ds: seq<Descriptor>, m: map<string, Executor>, ids: set<string>)
  {
    Listed(ds, m, ids, {})
  }

  /** `ds` lists, each exactly once, the descriptors of the executors `m`
      holds under the ids in `ids` but not in `rest`. */
  ghost predicate Listed(ds: seq<Descriptor>, m: map<string, Executor>, ids: set<string>, rest: set<string>)
  {
    && (forall k :: 0 <= k < |ds| ==> ds[k].id in ids && ds[k].id !in rest && ds[k].id in m && ds[k] == m[ds[k].id].metadata)
    && (forall i, j :: 0 <= i < j < |ds| ==> ds[i].id != ds[j].id)
    && (forall id :: id in ids && id !in rest ==> exists k :: 0 <= k < |ds| && ds[k].id == id)
  }

  /** Taking one more id off `rest`, and listing it if it is wanted,
      keeps the listing exact. */
  lemma ListNext(ds: seq<Descriptor>, m: map<string, Executor>, ids: set<string>, rest: set<string>, id: string)
    requires Listed(ds, m, ids, rest) && id in rest && id in m && m[id].metadata.id == id
    ensures id in ids ==> Listed(ds + [m[id].metadata], m, ids, rest - {id})
    ensures id !in ids ==> Listed(ds, m, ids, rest - {id})
  {
    var ds' := ds + [m[id].metadata];
    if id in ids {
      forall x | x in ids && x !in rest - {id}
        ensures exists k :: 0 <= k < |ds'| && ds'[k].id == x
      {
        if x == id {
          assert ds'[|ds|].id == x;
        } else {
          var k :| 0 <= k < |ds| && ds[k].id == x;
          assert ds'[k].id == x;
        }
      }
    }
  }

  /** The ids registerAlgorithms registers. */
  const StandardIds: set<string> :=
    {"bubble_sort", "merge_sort", "quick_sort", "heap_sort", "counting_sort",
     "linear_search", "binary_search", "dfs", "bfs", "hash_lookup"}

  /** `m` holds an executor of type `k` under `k`'s id, reporting `k`'s
      category. */
  ghost predicate Filed(m: map<string, Executor>, k: ExecutorKind)
  {
    IdOf(k) in m && m[IdOf(k)].kind == k && m[IdOf(k)].metadata.category == CategoryOf(k)
  }

  class Registry {
    var algorithms: map<string, Executor>

    /** Every executor is stored under the id its metadata reports. */
    ghost predicate Valid()
      reads this
    {
      forall id {:trigger algorithms[id]} :: id in algorithms ==> algorithms[id].metadata.id == id
    }

    /** NewRegistry: an empty map, then registerAlgorithms. */
    constructor ()
      ensures Valid()
      ensures algorithms.Keys == StandardIds
      ensures forall k :: Filed(algorithms, k)
    {
      algorithms := map[];
      new;
      RegisterAlgorithms();
    }

    /** RegisterAlgorithm: store `e` under its id, replacing whatever was
        there; every other id keeps its executor. */
    method RegisterAlgorithm(e: Executor)
      requires Valid()
      modifies this
      ensures Valid()
      ensures algorithms == old(algorithms)[e.metadata.id := e]
    {
      algorithms := algorithms[e.metadata.id := e];
    }

    /** GetAlgorithm: the executor registered under `id`, if there is one. */
    method GetAlgorithm(id: string) returns (e: Option<Executor>, exists_: bool)
      ensures exists_ <==> id in algorithms
      ensures exists_ ==> e == Some(algorithms[id])
      ensures !exists_ ==> e == None
    {
      if id in algorithms {
        return Some(algorithms[id]), true;
      }
      return None, false;
    }

    /** GetAllAlgorithms: one descriptor per registered id, in the map's
        iteration order, which is left unspecified. */
    method GetAllAlgorithms() returns (result: seq<Descriptor>)
      requires Valid()
      ensures Enumerates(result, algorithms, algorithms.Keys)
      ensures |result| == |algorithms|
    {
      result := [];
      var rest := algorithms.Keys;
      while rest != {}
        invariant rest <= algorithms.Keys && |result| + |rest| == |algorithms|
        invariant Listed(result, algorithms, algorithms.Keys, rest)
        decreases |rest|
      {
        var id :| id in rest;
        ListNext(result, algorithms, algorithms.Keys, rest, id);
        result := result + [algorithms[id].metadata];
        rest := rest - {id};
      }
    }

    /** GetAlgorithmsByCategory: the descriptors of the registered
        executors whose category is `c`, each once. */
    method GetAlgorithmsByCategory(c: Category) returns (result: seq<Descriptor>)
      requires Valid()
      ensures Enumerates(result, algorithms, CategoryIds(algorithms, c))
      ensures forall k :: 0 <= k < |result| ==> result[k].category == c
    {
      result := [];
      var rest := algorithms.Keys;
      while rest != {}
        invariant rest <= algorithms.Keys
        invariant Listed(result, algorithms, CategoryIds(algorithms, c), rest)
        decreases |rest|
      {
        var id :| id in rest;
        ListNext(result, algorithms, CategoryIds(algorithms, c), rest, id);
        var metadata := algorithms[id].metadata;
        if metadata.category == c {
          result := result + [metadata];
        }
        rest := rest - {id};
      }
    }

    /** registerAlgorithms: the five sorting executors, then the five
        searching ones; ids registered before keep their executors only if
        they are not among the ten. */
    method RegisterAlgorithms()
      requires Valid()
      modifies this
      ensures Valid()
      ensures algorithms.Keys == old(algorithms).Keys + StandardIds
      ensures forall id :: id in old(algorithms) && id !in StandardIds ==> algorithms[id] == old(algorithms)[id]
      ensures forall k :: Filed(algorithms, k)
    {
      ghost var m0 := algorithms;
      var b := NewBubbleSort();
      assert Reports(b, BubbleSortExecutor);
      RegisterAlgorithm(b);
      var mg := NewMergeSort();
      assert Reports(mg, MergeSortExecutor);
      RegisterAlgorithm(mg);
      var q := NewQuickSort();
      assert Reports(q, QuickSortExecutor);
      RegisterAlgorithm(q);
      var h := NewHeapSort();
      assert Reports(h, HeapSortExecutor);
      RegisterAlgorithm(h);
      var c := NewCountingSort();
      assert Reports(c, CountingSortExecutor);
      RegisterAlgorithm(c);
      var l := NewLinearSearch();
      assert Reports(l, LinearSearchExecutor);
      RegisterAlgorithm(l);
      var bs := NewBinarySearch();
      assert Reports(bs, BinarySearchExecutor);
      RegisterAlgorithm(bs);
      var d := NewDFS();
      assert Reports(d, DfsExecutor);
      RegisterAlgorithm(d);
      var bf := NewBFS();
      assert Reports(bf, BfsExecutor);
      RegisterAlgorithm(bf);
      var hl := NewHashLookup();
      assert Reports(hl, HashLookupExecutor);
      RegisterAlgorithm(hl);
      Registration(m0, b, mg, q, h, c, l, bs, d, bf, hl);
    }
  }

  /** `e` is an executor of type `k`, reporting `k`'s id and category. */
  ghost predicate Reports(e: Executor, k: ExecutorKind)
  {
    e.kind == k && e.metadata.id == IdOf(k) && e.metadata.category == CategoryOf(k)
  }

  /** Registering the ten executors, in the order registerAlgorithms
      does, adds the ten ids, files each executor under its id and keeps
      every other entry. */
  lemma Registration(m0: map<string, Executor>, b: Executor, mg: Executor, q: Executor, h: Executor, c: Executor,
                     l: Executor, bs: Executor, d: Executor, bf: Executor, hl: Executor)
    requires Reports(b, BubbleSortExecutor) && Reports(mg, MergeSortExecutor) && Reports(q, QuickSortExecutor)
    requires Reports(h, HeapSortExecutor) && Reports(c, CountingSortExecutor) && Reports(l, LinearSearchExecutor)
    requires Reports(bs, BinarySearchExecutor) && Reports(d, DfsExecutor) && Reports(bf, BfsExecutor)
    requires Reports(hl, HashLookupExecutor)
    ensures var m := m0[b.metadata.id := b][mg.metadata.id := mg][q.metadata.id := q][h.metadata.id := h][c.metadata.id := c]
                       [l.metadata.id := l][bs.metadata.id := bs][d.metadata.id := d][bf.metadata.id := bf][hl.metadata.id := hl];
            && m.Keys == m0.Keys + StandardIds
            && (forall id :: id in m0 && id !in StandardIds ==> m[id] == m0[id])
            && (forall k :: Filed(m, k))
  {
  }

  /** Every descriptor listed for a category is also listed by the
      unfiltered query over the same map. */
  lemma CategorySubset(all: seq<Descriptor>, some: seq<Descriptor>, m: map<string, Executor>, c: Category)
    requires Enumerates(all, m, m.Keys) && Enumerates(some, m, CategoryIds(m, c))
    ensures forall k :: 0 <= k < |some| ==> some[k] in all
  {
    forall k | 0 <= k < |some|
      ensures some[k] in all
    {
      var j :| 0 <= j < |all| && all[j].id == some[k].id;
    }
  }

  /** The ten ids registerAlgorithms registers are distinct. */
  lemma StandardIdsCount()
    ensures |StandardIds| == 10
  {
  }

  /** A registry holding exactly the ten ids, each with the executor
      registerAlgorithms files under it, has ten entries. */
  lemma StandardSize(m: map<string, Executor>)
    requires m.Keys == StandardIds
    ensures |m| == 10
  {
    StandardIdsCount();
  }
}
