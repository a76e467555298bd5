/** `parser`, from the tuple of result-cell texts onward: cells are paired
    label/value (`zip(textos[::2], textos[1::2])`), each label goes through
    `limpar_chave` and each value through `limpar_valor`, the pairs build a
    dict, and the entries whose value is falsy are dropped. */
module ResponseParser {
  import opened Wrappers
  import opened KeyCleaning
  import opened ValueCleaning
  import opened OrderedMaps

  /** `s[::2]`. */
  function Evens<T>(s: seq<T>): (r: seq<T>)
    ensures |r| == (|s| + 1) / 2
    ensures forall i :: 0 <= i < |r| ==> r[i] == s[2 * i]
  {
    if |s| <= 1 then s else [s[0]] + Evens(s[2..])
  }

  /** `s[1::2]`. */
  function Odds<T>(s: seq<T>): (r: seq<T>)
    ensures |r| == |s| / 2
    ensures forall i :: 0 <= i < |r| ==> r[i] == s[2 * i + 1]
  {
    if s == [] then [] else Evens(s[1..])
  }

  /** `zip(xs, ys)`: stops at the shorter sequence. */
  function Zip<A, B>(xs: seq<A>, ys: seq<B>): (r: seq<(A, B)>)
    ensures |r| == if |xs| <= |ys| then |xs| else |ys|
    ensures forall i :: 0 <= i < |r| ==> r[i] == (xs[i], ys[i])
  {
    if xs == [] || ys == [] then [] else [(xs[0], ys[0])] + Zip(xs[1..], ys[1..])
  }

  /** The (label, value) cell pairs of a result table. */
  function Pairs(cells: seq<string>): seq<(string, string)> {
    Zip(Evens(cells), Odds(cells))
  }

  /** The label of pair `i` and its value. */
  function LabelCell(cells: seq<string>, i: nat): string
    requires 2 * i + 1 < |cells|
  {
    cells[2 * i]
  }

  function ValueCell(cells: seq<string>, i: nat): string
    requires 2 * i + 1 < |cells|
  {
    cells[2 * i + 1]
  }

  /** Pair `i` is cell `2i` with cell `2i + 1`; an unpaired last cell is
      not part of any pair. */
  lemma PairsAt(cells: seq<string>)
    ensures |Pairs(cells)| == |cells| / 2
    ensures forall i :: 0 <= i < |cells| / 2 ==>
      Pairs(cells)[i] == (LabelCell(cells, i), ValueCell(cells, i))
  {
  }

  /** One entry of the dict comprehension: `limpar_chave(chave): limpar_valor(valor)`. */
  function CleanPair(p: (string, string)): Result<(string, Value), ValueError> {
    var v :- CleanValue(p.1);
    Success((CleanKey(p.0), v))
  }

  /** Builds the entries in order, stopping at the first one that fails
      with its error, as a comprehension does when one of its expressions
      raises. */
  function Traverse<A, B, E>(f: A -> Result<B, E>, xs: seq<A>): Result<seq<B>, E> {
    if xs == [] then
      Success([])
    else
      var y :- f(xs[0]);
      var rest :- Traverse(f, xs[1..]);
      Success([y] + rest)
  }

  /** The comprehension completes exactly when every entry does, and then
      holds one result per input, in order. */
  lemma {:induction false} TraverseSuccess<A, B, E>(f: A -> Result<B, E>, xs: seq<A>)
    ensures Traverse(f, xs).Success? <==> forall i :: 0 <= i < |xs| ==> f(xs[i]).Success?
    ensures Traverse(f, xs).Success? ==> |Traverse(f, xs).value| == |xs|
    ensures Traverse(f, xs).Success? ==>
      forall i :: 0 <= i < |xs| ==> Traverse(f, xs).value[i] == f(xs[i]).value
  {
    if xs != [] {
      TraverseSuccess(f, xs[1..]);
      assert forall i :: 1 <= i < |xs| ==> xs[i] == xs[1..][i - 1];
    }
  }

  /** When it stops, it stops at the first entry that fails. */
  lemma {:induction false} TraverseFailure<A, B, E>(f: A -> Result<B, E>, xs: seq<A>)
    requires Traverse(f, xs).Failure?
    ensures exists i ::
              0 <= i < |xs| && f(xs[i]) == Failure(Traverse(f, xs).error) &&
              forall j :: 0 <= j < i ==> f(xs[j]).Success?
  {
    if f(xs[0]).Success? {
      var tail := xs[1..];
      TraverseFailure(f, tail);
      var i :| 0 <= i < |tail| && f(tail[i]) == Failure(Traverse(f, tail).error) &&
        (forall j :: 0 <= j < i ==> f(tail[j]).Success?);
      assert xs[i + 1] == tail[i];
      forall j | 0 <= j < i + 1
        ensures f(xs[j]).Success?
      {
        if j > 0 {
          assert xs[j] == tail[j - 1];
        }
      }
    }
  }

  /** The dict comprehension's entries. */
  function CleanPairs(ps: seq<(string, string)>): Result<seq<(string, Value)>, ValueError> {
    Traverse(CleanPair, ps)
  }

  /** A pair cleans exactly when its value does. */
  lemma CleanPairResult(p: (string, string))
    ensures CleanPair(p).Success? <==> CleanValue(p.1).Success?
    ensures CleanPair(p).Success? ==> CleanPair(p).value == (CleanKey(p.0), CleanValue(p.1).value)
    ensures CleanPair(p).Failure? ==> CleanPair(p).error == CleanValue(p.1).error
  {
  }

  /** `parser` on the texts of the result cells. */
  function Parse(cells: seq<string>): Result<OrderedMap<string, Value>, ValueError> {
    var entries :- CleanPairs(Pairs(cells));
    Success(Filter(FromSeq(entries), Truthy))
  }

  /** The cleaned labels, one per pair, in table order. */
  function Labels(cells: seq<string>): (ls: seq<string>)
    ensures |ls| == |cells| / 2
    ensures forall i :: 0 <= i < |ls| ==> ls[i] == CleanKey(LabelCell(cells, i))
  {
    seq(|cells| / 2, i requires 0 <= i < |cells| / 2 => CleanKey(cells[2 * i]))
  }

  /** Cleaning the pairs of a table completes exactly when every pair
      cleans. */
  lemma PairsSuccess<B, E>(f: ((string, string)) -> Result<B, E>, cells: seq<string>)
    ensures Traverse(f, Pairs(cells)).Success? <==>
      forall i :: 0 <= i < |cells| / 2 ==> f((LabelCell(cells, i), ValueCell(cells, i))).Success?
  {
    PairsAt(cells);
    TraverseSuccess(f, Pairs(cells));
  }

  /** When it stops, it stops at the first pair that does not clean. */
  lemma PairsFailure<B, E>(f: ((string, string)) -> Result<B, E>, cells: seq<string>)
    requires Traverse(f, Pairs(cells)).Failure?
    ensures exists i ::
              0 <= i < |cells| / 2 &&
              f((LabelCell(cells, i), ValueCell(cells, i))) == Failure(Traverse(f, Pairs(cells)).error) &&
              forall j :: 0 <= j < i ==> f((LabelCell(cells, j), ValueCell(cells, j))).Success?
  {
    PairsAt(cells);
    TraverseFailure(f, Pairs(cells));
  }

  /** Parsing succeeds exactly when every value cell can be cleaned. */
  lemma ParseSucceeds(cells: seq<string>)
    ensures Parse(cells).Success? <==>
      forall i :: 0 <= i < |cells| / 2 ==> CleanValue(ValueCell(cells, i)).Success?
  {
    PairsSuccess(CleanPair, cells);
    forall i | 0 <= i < |cells| / 2
      ensures CleanPair((LabelCell(cells, i), ValueCell(cells, i))).Success? <==>
        CleanValue(ValueCell(cells, i)).Success?
    {
      CleanPairResult((LabelCell(cells, i), ValueCell(cells, i)));
    }
  }

  /** A failed parse reports the error of the first value cell that cannot
      be cleaned. */
  lemma ParseFails(cells: seq<string>)
    requires Parse(cells).Failure?
    ensures exists i ::
              0 <= i < |cells| / 2 &&
              CleanValue(ValueCell(cells, i)) == Failure(Parse(cells).error) &&
              forall j :: 0 <= j < i ==> CleanValue(ValueCell(cells, j)).Success?
  {
    PairsFailure(CleanPair, cells);
    var i :| 0 <= i < |cells| / 2 &&
      CleanPair((LabelCell(cells, i), ValueCell(cells, i))) == Failure(Parse(cells).error) &&
      forall j :: 0 <= j < i ==> CleanPair((LabelCell(cells, j), ValueCell(cells, j))).Success?;
    CleanPairResult((LabelCell(cells, i), ValueCell(cells, i)));
    forall j | 0 <= j < i
      ensures CleanValue(ValueCell(cells, j)).Success?
    {
      CleanPairResult((LabelCell(cells, j), ValueCell(cells, j)));
    }
  }

  /** The entries the comprehension builds, before the dict merges them. */
  lemma EntriesAt(cells: seq<string>)
    requires Parse(cells).Success?
    ensures |CleanPairs(Pairs(cells)).value| == |cells| / 2
    ensures forall i :: 0 <= i < |cells| / 2 ==>
      CleanValue(ValueCell(cells, i)).Success? &&
      CleanPairs(Pairs(cells)).value[i] == (CleanKey(LabelCell(cells, i)), CleanValue(ValueCell(cells, i)).value)
  {
    PairsAt(cells);
    var ps := Pairs(cells);
    TraverseSuccess(CleanPair, ps);
    forall i | 0 <= i < |ps|
      ensures CleanValue(ValueCell(cells, i)).Success? &&
        CleanPairs(ps).value[i] == (CleanKey(LabelCell(cells, i)), CleanValue(ValueCell(cells, i)).value)
    {
      CleanPairResult(ps[i]);
    }
  }

  /** Entry `i` of the comprehension is the last one for `k`, with value
      `v`, exactly when pair `i` is the last pair labelled `k` and its value
      cleans to `v`. */
  lemma LastEntryAt(cells: seq<string>, k: string, v: Value, i: nat)
    requires Parse(cells).Success? && i < |cells| / 2
    ensures LastEntry(CleanPairs(Pairs(cells)).value, k, v, i) <==>
      LastPairFor(cells, k, i) && CleanValue(ValueCell(cells, i)) == Success(v)
  {
    var es := CleanPairs(Pairs(cells)).value;
    EntriesAt(cells);
    assert |es| == |cells| / 2;
    if LastEntry(es, k, v, i) {
      forall j | i < j < |cells| / 2
        ensures CleanKey(LabelCell(cells, j)) != k
      {
        assert es[j].0 == CleanKey(LabelCell(cells, j));
      }
    }
    if LastPairFor(cells, k, i) && CleanValue(ValueCell(cells, i)) == Success(v) {
      forall j | i < j < |es|
        ensures es[j].0 != k
      {
        assert es[j].0 == CleanKey(LabelCell(cells, j));
      }
    }
  }

  /** The entries of a parsed table: `k` maps to `v` exactly when `v` is
      truthy and is the cleaned value of the last pair whose cleaned label
      is `k`. */
  lemma ParseEntries(cells: seq<string>, k: string, v: Value)
    requires Parse(cells).Success?
    ensures (k, v) in Parse(cells).value <==>
      Truthy(v) &&
      exists i ::
        0 <= i < |cells| / 2 && LastPairFor(cells, k, i) &&
        CleanValue(ValueCell(cells, i)) == Success(v)
  {
    var es := CleanPairs(Pairs(cells)).value;
    EntriesAt(cells);
    FilterFromSeq(es, Truthy, k, v);
    if exists i :: LastEntry(es, k, v, i) {
      var i :| LastEntry(es, k, v, i);
      LastEntryAt(cells, k, v, i);
    }
    if exists i :: 0 <= i < |cells| / 2 && LastPairFor(cells, k, i) && CleanValue(ValueCell(cells, i)) == Success(v) {
      var i :| 0 <= i < |cells| / 2 && LastPairFor(cells, k, i) && CleanValue(ValueCell(cells, i)) == Success(v);
      LastEntryAt(cells, k, v, i);
    }
  }

  /** Pair `i` is the last pair whose cleaned label is `k`. */
  ghost predicate LastPairFor(cells: seq<string>, k: string, i: nat)
    requires 2 * i + 1 < |cells|
  {
    CleanKey(LabelCell(cells, i)) == k &&
    forall j :: i < j < |cells| / 2 ==> CleanKey(LabelCell(cells, j)) != k
  }

  /** A parsed table has each label once, and the labels stand in the
      order of their first appearance in the table. */
  lemma ParseOrder(cells: seq<string>)
    requires Parse(cells).Success?
    ensures DistinctKeys(Parse(cells).value)
    ensures SortedBy(Parse(cells).value, k => FirstIndex(Labels(cells), k))
  {
    var es := CleanPairs(Pairs(cells)).value;
    EntriesAt(cells);
    assert Keys(es) == Labels(cells);
    FromSeqOrder(es);
    FilterSorted(FromSeq(es), Truthy, k => FirstIndex(Labels(cells), k));
  }

  /** Every label of a parsed table is in the form `limpar_chave` leaves
      it: single spaces between words, none at either end. */
  lemma ParseLabelsNormalized(cells: seq<string>, e: (string, Value))
    requires Parse(cells).Success?
    requires e in Parse(cells).value
    ensures Normalized(e.0)
  {
    var es := CleanPairs(Pairs(cells)).value;
    assert Parse(cells).value == Filter(FromSeq(es), Truthy);
    FilterFromSeq(es, Truthy, e.0, e.1);
    var i :| LastEntry(es, e.0, e.1, i);
    LabelAt(cells, i);
    CleanKeyNormalized(LabelCell(cells, i));
  }

  /** The `i`-th cleaned entry carries the cleaned `i`-th label. */
  lemma LabelAt(cells: seq<string>, i: int)
    requires Parse(cells).Success?
    requires 0 <= i < |CleanPairs(Pairs(cells)).value|
    ensures i < |cells| / 2 && CleanPairs(Pairs(cells)).value[i].0 == CleanKey(LabelCell(cells, i))
  {
    EntriesAt(cells);
  }

  /** A trailing cell without a partner is ignored. */
  lemma ParseIgnoresUnpairedCell(cells: seq<string>, extra: string)
    requires |cells| % 2 == 0
    ensures Parse(cells + [extra]) == Parse(cells)
  {
    var more := cells + [extra];
    PairsAt(cells);
    PairsAt(more);
    assert Pairs(more) == Pairs(cells);
  }
}
