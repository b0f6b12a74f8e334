/**
 * Generic facts about the Python lists the extractor builds: a list of lists
 * read group by group, and a loop of appends that an exception can abort.
 */
module Lists {
  import opened Wrappers

  /** The elements of every group, group by group, each group in its own order. */
  function Flatten<T>(groups: seq<seq<T>>): seq<T>
  {
    if groups == [] then []
    else Flatten(groups[..|groups| - 1]) + groups[|groups| - 1]
  }

  /** The sizes of the groups, summed. */
  function TotalLength<T>(groups: seq<seq<T>>): nat
  {
    if groups == [] then 0 else |groups[0]| + TotalLength(groups[1..])
  }

  lemma {:induction false} TotalLengthAppend<T>(a: seq<seq<T>>, b: seq<seq<T>>)
    ensures TotalLength(a + b) == TotalLength(a) + TotalLength(b)
  {
    if a == [] {
      assert a + b == b;
    } else {
      assert (a + b)[0] == a[0] && (a + b)[1..] == a[1..] + b;
      TotalLengthAppend(a[1..], b);
    }
  }

  /** Flattening keeps every element: its length is the summed size of the groups. */
  lemma {:induction false} FlattenLength<T>(groups: seq<seq<T>>)
    ensures |Flatten(groups)| == TotalLength(groups)
  {
    if groups != [] {
      var n := |groups|;
      FlattenLength(groups[..n - 1]);
      TotalLengthAppend(groups[..n - 1], [groups[n - 1]]);
      assert groups[..n - 1] + [groups[n - 1]] == groups;
      assert TotalLength([groups[n - 1]]) == |groups[n - 1]|;
    }
  }

  /**
   * Element `j` of group `i` comes after all elements of the groups before
   * it and after the `j` elements before it in its group.
   */
  lemma {:induction false} FlattenAt<T>(groups: seq<seq<T>>, i: int, j: int)
    requires 0 <= i < |groups| && 0 <= j < |groups[i]|
    ensures TotalLength(groups[..i]) + j < |Flatten(groups)|
    ensures Flatten(groups)[TotalLength(groups[..i]) + j] == groups[i][j]
  {
    var n := |groups|;
    var init := groups[..n - 1];
    FlattenLength(init);
    if i == n - 1 {
      assert groups[..i] == init;
    } else {
      assert groups[..i] == init[..i] && groups[i] == init[i];
      FlattenAt(init, i, j);
    }
  }

  /** Every element of the flattened list is element `j` of some group `i`, at the place FlattenAt gives it. */
  lemma {:induction false} FlattenSource<T>(groups: seq<seq<T>>, k: int)
    requires 0 <= k < |Flatten(groups)|
    ensures exists i, j :: 0 <= i < |groups| && 0 <= j < |groups[i]|
                           && k == TotalLength(groups[..i]) + j && Flatten(groups)[k] == groups[i][j]
  {
    var n := |groups|;
    var init := groups[..n - 1];
    FlattenLength(init);
    if k < |Flatten(init)| {
      FlattenSource(init, k);
      var i, j :| 0 <= i < |init| && 0 <= j < |init[i]|
                  && k == TotalLength(init[..i]) + j && Flatten(init)[k] == init[i][j];
      assert groups[..i] == init[..i] && groups[i] == init[i];
    } else {
      assert groups[..n - 1] == init;
      assert Flatten(groups)[k] == groups[n - 1][k - TotalLength(init)];
    }
  }

  lemma {:induction false} FlattenAppend<T>(a: seq<seq<T>>, b: seq<seq<T>>)
    ensures Flatten(a + b) == Flatten(a) + Flatten(b)
  {
    if b == [] {
      assert a + b == a;
    } else {
      var n := |b|;
      assert (a + b)[..|a + b| - 1] == a + b[..n - 1] && (a + b)[|a + b| - 1] == b[n - 1];
      FlattenAppend(a, b[..n - 1]);
    }
  }

  /** Groups that are all empty flatten to nothing. */
  lemma {:induction false} FlattenOfEmpty<T>(groups: seq<seq<T>>)
    requires forall i :: 0 <= i < |groups| ==> groups[i] == []
    ensures Flatten(groups) == []
  {
    if groups != [] {
      var n := |groups|;
      assert forall i :: 0 <= i < n - 1 ==> groups[..n - 1][i] == groups[i];
      FlattenOfEmpty(groups[..n - 1]);
    }
  }

  /** The flattened groups split around element `j` of group `i`. */
  lemma FlattenSplit<T>(groups: seq<seq<T>>, i: int, j: int)
    requires 0 <= i < |groups| && 0 <= j < |groups[i]|
    ensures Flatten(groups) == Flatten(groups[..i]) + groups[i][..j + 1]
                               + (groups[i][j + 1..] + Flatten(groups[i + 1..]))
  {
    assert groups == groups[..i + 1] + groups[i + 1..];
    FlattenAppend(groups[..i + 1], groups[i + 1..]);
    assert groups[..i + 1][..i] == groups[..i];
    assert groups[i] == groups[i][..j + 1] + groups[i][j + 1..];
  }

  /** One group more: a prefix of the groups grows by the next group. */
  lemma FlattenNext<T>(groups: seq<seq<T>>, i: int)
    requires 0 <= i < |groups|
    ensures Flatten(groups[..i + 1]) == Flatten(groups[..i]) + groups[i][..|groups[i]|]
  {
    assert groups[..i + 1][..i] == groups[..i];
    assert groups[i][..|groups[i]|] == groups[i];
  }

  /**
   * Loop-step helper for a loop over `s` that keeps the visited prefix
   * `p + s[..j]`: growing it by one element, and the empty prefix.
   */
  lemma Extend<T>(p: seq<T>, s: seq<T>, j: int)
    requires 0 <= j <= |s|
    ensures j == 0 ==> p + s[..j] == p
    ensures 0 < j ==> p + s[..j - 1] + [s[j - 1]] == p + s[..j]
  {
    if 0 < j {
      assert s[..j] == s[..j - 1] + [s[j - 1]];
    }
  }

  /**
   * The successful values of `rs` in order, or the first failure among them:
   * what a loop of appends yields when any step may raise.
   */
  function Collect<T, E>(rs: seq<Result<T, E>>): (r: Result<seq<T>, E>)
    ensures r.Success? ==> |r.value| == |rs|
  {
    if rs == [] then Success([])
    else
      match Collect(rs[..|rs| - 1])
      case Failure(e) => Failure(e)
      case Success(vs) =>
        match rs[|rs| - 1]
        case Failure(e) => Failure(e)
        case Success(v) => Success(vs + [v])
  }

  /** Collecting succeeds exactly when every step does, keeping each step's value in place. */
  lemma {:induction false} CollectSuccess<T, E>(rs: seq<Result<T, E>>)
    ensures Collect(rs).Success? <==> forall k :: 0 <= k < |rs| ==> rs[k].Success?
    ensures Collect(rs).Success? ==> forall k :: 0 <= k < |rs| ==> rs[k] == Success(Collect(rs).value[k])
  {
    if rs != [] {
      var n := |rs|;
      CollectSuccess(rs[..n - 1]);
      assert forall k :: 0 <= k < n - 1 ==> rs[..n - 1][k] == rs[k];
    }
  }

  /** Collecting fails with the first failure. */
  lemma {:induction false} CollectFailure<T, E>(rs: seq<Result<T, E>>)
    requires Collect(rs).Failure?
    ensures exists k :: 0 <= k < |rs| && rs[k] == Failure(Collect(rs).error)
                        && forall j :: 0 <= j < k ==> rs[j].Success?
  {
    var n := |rs|;
    var init := rs[..n - 1];
    assert forall k :: 0 <= k < n - 1 ==> init[k] == rs[k];
    if Collect(init).Failure? {
      CollectFailure(init);
      var k :| 0 <= k < |init| && init[k] == Failure(Collect(init).error)
               && forall j :: 0 <= j < k ==> init[j].Success?;
      assert rs[k] == Failure(Collect(rs).error);
    } else {
      CollectSuccess(init);
    }
  }

  /** Once a prefix fails, nothing after it is looked at. */
  lemma {:induction false} CollectStopsAtFailure<T, E>(a: seq<Result<T, E>>, b: seq<Result<T, E>>)
    requires Collect(a).Failure?
    ensures Collect(a + b) == Collect(a)
  {
    if b == [] {
      assert a + b == a;
    } else {
      var n := |b|;
      assert (a + b)[..|a + b| - 1] == a + b[..n - 1];
      CollectStopsAtFailure(a, b[..n - 1]);
    }
  }
}
