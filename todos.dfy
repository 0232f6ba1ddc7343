/** The to-do list as a value: the records held in the `todos` state of the
    App component, and the list computations its handlers perform. */
module Todos {

  /** Ids are the opaque strings produced by a uuid generator. */
  type Id = string

  /** One to-do record `{id, name, complete}`. */
  datatype Todo = Todo(id: Id, name: string, complete: bool)

  datatype Option<T> = None | Some(value: T)

  /** Reading `complete` of the `undefined` that `find` returns for an id the
      list does not hold raises a TypeError; this is that error. */
  datatype Error = UnknownId(id: Id)

  datatype Result<T> = Ok(value: T) | Err(error: Error)

  /** The set of ids in use. */
  function Ids(s: seq<Todo>): set<Id> {
    set k | 0 <= k < |s| :: s[k].id
  }

  /** The list invariant: no two records share an id. */
  predicate UniqueIds(s: seq<Todo>) {
    forall i, j :: 0 <= i < |s| && 0 <= j < |s| && s[i].id == s[j].id ==> i == j
  }

  /** The names, in list order. */
  function Names(s: seq<Todo>): seq<string> {
    seq(|s|, k requires 0 <= k < |s| => s[k].name)
  }

  /** The record with its completion flag flipped. */
  function Flipped(t: Todo): Todo {
    t.(complete := !t.complete)
  }

  // ---------------------------------------------------------------------
  // Adding a record (handleClick)
  // ---------------------------------------------------------------------

  /** The list after submitting `name`, where `freshId` is the id the
      generator would hand out. Only the literal empty string is rejected. */
  function AddTodo(s: seq<Todo>, name: string, freshId: Id): seq<Todo> {
    if name == "" then s else s + [Todo(freshId, name, false)]
  }

  /** Adding leaves the list unchanged exactly when the name is empty;
      otherwise it appends one incomplete record with the given name and id
      behind the untouched old records. */
  lemma AddSpec(s: seq<Todo>, name: string, freshId: Id)
    ensures AddTodo(s, name, freshId) == s <==> name == ""
    ensures name != "" ==>
      var r := AddTodo(s, name, freshId);
      |r| == |s| + 1 && r[..|s|] == s && r[|s|] == Todo(freshId, name, false)
  {
    if name != "" {
      assert |AddTodo(s, name, freshId)| == |s| + 1;
    }
  }

  /** Names made only of blanks are not rejected. */
  lemma AddBlankNameAppends(s: seq<Todo>, freshId: Id)
    ensures |AddTodo(s, " ", freshId)| == |s| + 1
    ensures AddTodo(s, " ", freshId)[|s|].name == " "
  {
  }

  /** A fresh id keeps the ids pairwise distinct. */
  lemma AddPreservesUniqueIds(s: seq<Todo>, name: string, freshId: Id)
    requires UniqueIds(s)
    requires freshId !in Ids(s)
    ensures UniqueIds(AddTodo(s, name, freshId))
    ensures Ids(AddTodo(s, name, freshId)) == if name == "" then Ids(s) else Ids(s) + {freshId}
  {
    if name != "" {
      var r := AddTodo(s, name, freshId);
      forall x | x in Ids(r) ensures x in Ids(s) + {freshId} {
        var k :| 0 <= k < |r| && r[k].id == x;
        if k < |s| { assert s[k].id in Ids(s); }
      }
      forall x | x in Ids(s) + {freshId} ensures x in Ids(r) {
        if x == freshId {
          assert r[|s|].id in Ids(r);
        } else {
          var k :| 0 <= k < |s| && s[k].id == x;
          assert r[k].id in Ids(r);
        }
      }
    }
  }

  /** A sequence of submissions, one id per submission, applied in order. */
  function AddAll(s: seq<Todo>, names: seq<string>, ids: seq<Id>): seq<Todo>
    requires |ids| == |names|
    decreases |names|
  {
    if names == [] then s
    else AddAll(AddTodo(s, names[0], ids[0]), names[1..], ids[1..])
  }

  /** The names of the submissions that are not the empty string, in order. */
  function NonEmpty(names: seq<string>): (r: seq<string>)
    ensures |r| <= |names|
    ensures forall k :: 0 <= k < |r| ==> r[k] != ""
  {
    if names == [] then []
    else if names[0] == "" then NonEmpty(names[1..])
    else [names[0]] + NonEmpty(names[1..])
  }

  /** After a sequence of submissions the list holds the old names followed by
      every non-empty submitted name in submission order, and each of those is
      one more remaining record. */
  lemma {:induction false} AddAllSpec(s: seq<Todo>, names: seq<string>, ids: seq<Id>)
    requires |ids| == |names|
    ensures Names(AddAll(s, names, ids)) == Names(s) + NonEmpty(names)
    ensures |AddAll(s, names, ids)| == |s| + |NonEmpty(names)|
    ensures RemainingCount(AddAll(s, names, ids)) == RemainingCount(s) + |NonEmpty(names)|
    decreases |names|
  {
    if names != [] {
      var s1 := AddTodo(s, names[0], ids[0]);
      AddAllSpec(s1, names[1..], ids[1..]);
      AddRemaining(s, names[0], ids[0]);
      if names[0] == "" {
        assert NonEmpty(names) == NonEmpty(names[1..]);
      } else {
        assert Names(s1) == Names(s) + [names[0]];
        assert NonEmpty(names) == [names[0]] + NonEmpty(names[1..]);
      }
    }
  }

  /** Distinct fresh ids for every submission keep the list ids distinct. */
  lemma {:induction false} AddAllPreservesUniqueIds(s: seq<Todo>, names: seq<string>, ids: seq<Id>)
    requires |ids| == |names|
    requires UniqueIds(s)
    requires forall k :: 0 <= k < |ids| ==> ids[k] !in Ids(s)
    requires forall i, j :: 0 <= i < j < |ids| ==> ids[i] != ids[j]
    ensures UniqueIds(AddAll(s, names, ids))
    decreases |names|
  {
    if names != [] {
      var s1 := AddTodo(s, names[0], ids[0]);
      AddPreservesUniqueIds(s, names[0], ids[0]);
      forall k | 0 <= k < |ids[1..]| ensures ids[1..][k] !in Ids(s1) {
        assert ids[1..][k] == ids[k + 1];
      }
      AddAllPreservesUniqueIds(s1, names[1..], ids[1..]);
    }
  }

  // ---------------------------------------------------------------------
  // Toggling a record (toggleTodo)
  // ---------------------------------------------------------------------

  /** The index `Array.prototype.find` stops at: the first record with the id. */
  function FindIndex(s: seq<Todo>, id: Id): (r: Option<nat>)
    ensures r.Some? ==> r.value < |s| && s[r.value].id == id
    ensures r.Some? ==> forall j :: 0 <= j < r.value ==> s[j].id != id
    ensures r.None? <==> id !in Ids(s)
  {
    if s == [] then None
    else if s[0].id == id then
      assert s[0].id in Ids(s);
      Some(0)
    else
      var r := FindIndex(s[1..], id);
      assert Ids(s) == {s[0].id} + Ids(s[1..]) by {
        forall x | x in Ids(s) ensures x in {s[0].id} + Ids(s[1..]) {
          var k :| 0 <= k < |s| && s[k].id == x;
          if k > 0 { assert s[1..][k - 1].id == x; }
        }
        forall x | x in Ids(s[1..]) ensures x in Ids(s) {
          var k :| 0 <= k < |s[1..]| && s[1..][k].id == x;
          assert s[k + 1].id == x;
        }
      }
      match r
      case None => None
      case Some(k) => Some(k + 1)
  }

  /** The list after toggling `id`: a copy in which the first record with that
      id has its flag flipped, or the TypeError when no record has it. */
  function ToggleTodo(s: seq<Todo>, id: Id): (r: Result<seq<Todo>>)
    ensures r.Err? <==> id !in Ids(s)
    ensures r.Err? ==> r.error == UnknownId(id)
    ensures r.Ok? ==> |r.value| == |s|
    ensures r.Ok? ==> forall k :: 0 <= k < |s| ==>
      r.value[k].id == s[k].id && r.value[k].name == s[k].name
  {
    match FindIndex(s, id)
    case None => Err(UnknownId(id))
    case Some(i) => Ok(s[i := Flipped(s[i])])
  }

  /** Toggling flips the first record carrying the id and nothing else. */
  lemma ToggleAt(s: seq<Todo>, id: Id, i: nat)
    requires i < |s| && s[i].id == id
    requires forall j :: 0 <= j < i ==> s[j].id != id
    ensures ToggleTodo(s, id) == Ok(s[i := Flipped(s[i])])
  {
    assert s[i].id in Ids(s);
    var k := FindIndex(s, id).value;
    assert !(k < i) && !(i < k);
  }

  /** With distinct ids, the record carrying the id is the one flipped. */
  lemma ToggleUnique(s: seq<Todo>, id: Id, i: nat)
    requires UniqueIds(s)
    requires i < |s| && s[i].id == id
    ensures ToggleTodo(s, id) == Ok(s[i := Flipped(s[i])])
  {
    ToggleAt(s, id, i);
  }

  /** Toggling keeps the set of ids, hence distinct ids stay distinct. */
  lemma TogglePreservesIds(s: seq<Todo>, id: Id)
    requires ToggleTodo(s, id).Ok?
    ensures Ids(ToggleTodo(s, id).value) == Ids(s)
    ensures UniqueIds(s) ==> UniqueIds(ToggleTodo(s, id).value)
  {
    var t := ToggleTodo(s, id).value;
    forall x | x in Ids(t) ensures x in Ids(s) {
      var k :| 0 <= k < |t| && t[k].id == x;
      assert s[k].id == x;
    }
    forall x | x in Ids(s) ensures x in Ids(t) {
      var k :| 0 <= k < |s| && s[k].id == x;
      assert t[k].id == x;
    }
  }

  /** Toggling the same id twice gives back the original list. */
  lemma ToggleTwice(s: seq<Todo>, id: Id)
    requires ToggleTodo(s, id).Ok?
    ensures ToggleTodo(ToggleTodo(s, id).value, id) == Ok(s)
  {
    var i := FindIndex(s, id).value;
    var t := s[i := Flipped(s[i])];
    ToggleAt(t, id, i);
    assert t[i := Flipped(t[i])] == s;
  }

  /** Toggling moves the remaining count by exactly one: up when the flipped
      record was complete, down when it was not. */
  lemma ToggleRemaining(s: seq<Todo>, id: Id)
    requires ToggleTodo(s, id).Ok?
    ensures var c := s[FindIndex(s, id).value].complete;
      var n := RemainingCount(ToggleTodo(s, id).value);
      n == if c then RemainingCount(s) + 1 else RemainingCount(s) - 1
  {
    FlipRemaining(s, FindIndex(s, id).value);
  }

  // ---------------------------------------------------------------------
  // Clearing completed records (handleClear) and the remaining count
  // ---------------------------------------------------------------------

  /** `filter(todo => !todo.complete)`: the incomplete records. */
  function Incomplete(s: seq<Todo>): (r: seq<Todo>)
    ensures |r| <= |s|
    ensures forall k :: 0 <= k < |r| ==> !r[k].complete
    ensures forall t :: t in r <==> t in s && !t.complete
  {
    if s == [] then []
    else if s[0].complete then Incomplete(s[1..])
    else [s[0]] + Incomplete(s[1..])
  }

  /** The count shown as "Todos left". */
  function RemainingCount(s: seq<Todo>): (n: nat)
    ensures n <= |s|
  {
    |Incomplete(s)|
  }

  /** The positions of the incomplete records. */
  function IncompleteIndices(s: seq<Todo>): set<nat> {
    set i: nat | i < |s| && !s[i].complete
  }

  /** `r` holds, position by position, the records of `s` at positions `f`. */
  ghost predicate TakenAt(s: seq<Todo>, r: seq<Todo>, f: seq<nat>) {
    |f| == |r| && forall k :: 0 <= k < |f| ==> f[k] < |s| && r[k] == s[f[k]]
  }

  /** The positions are strictly increasing, so order is kept. */
  ghost predicate Increasing(f: seq<nat>) {
    forall k, l :: 0 <= k < l < |f| ==> f[k] < f[l]
  }

  /** `f` contains exactly the positions of the incomplete records. */
  ghost predicate CoversIncomplete(s: seq<Todo>, f: seq<nat>) {
    forall i :: 0 <= i < |s| ==> (i in f <==> !s[i].complete)
  }

  /** `f` lists, in increasing order, exactly the positions of `s` whose
      records are incomplete, and `r` holds the records at those positions. */
  ghost predicate SelectsIncomplete(s: seq<Todo>, r: seq<Todo>, f: seq<nat>) {
    TakenAt(s, r, f) && Increasing(f) && CoversIncomplete(s, f)
  }

  /** Every position moved one place right. */
  function Shift(f: seq<nat>): (g: seq<nat>)
    ensures |g| == |f| && forall k :: 0 <= k < |f| ==> g[k] == f[k] + 1
  {
    seq(|f|, k requires 0 <= k < |f| => f[k] + 1)
  }

  /** Clearing keeps exactly the incomplete records, in their original
      relative order: the result is the subsequence of `s` taken at the
      positions of its incomplete records. */
  lemma {:induction false} IncompleteSelects(s: seq<Todo>) returns (f: seq<nat>)
    ensures SelectsIncomplete(s, Incomplete(s), f)
  {
    if s == [] {
      f := [];
    } else {
      var g := IncompleteSelects(s[1..]);
      if s[0].complete {
        f := Shift(g);
        SelectsSkip(s, g);
      } else {
        f := [0] + Shift(g);
        SelectsKeep(s, g);
      }
    }
  }

  /** A completed head record is skipped: the positions move one right. */
  lemma SelectsSkip(s: seq<Todo>, g: seq<nat>)
    requires s != [] && s[0].complete
    requires SelectsIncomplete(s[1..], Incomplete(s[1..]), g)
    ensures SelectsIncomplete(s, Incomplete(s), Shift(g))
  {
    var f := Shift(g);
    forall k | 0 <= k < |f| ensures f[k] < |s| && Incomplete(s)[k] == s[f[k]] {
      assert s[f[k]] == s[1..][g[k]];
    }
    forall i | 0 <= i < |s| ensures i in f <==> !s[i].complete {
      if i == 0 {
        assert forall k :: 0 <= k < |f| ==> f[k] != 0;
      } else {
        ShiftMember(g, i - 1);
        assert s[i] == s[1..][i - 1];
      }
    }
  }

  /** An incomplete head record is kept at position 0 in front of the rest. */
  lemma SelectsKeep(s: seq<Todo>, g: seq<nat>)
    requires s != [] && !s[0].complete
    requires SelectsIncomplete(s[1..], Incomplete(s[1..]), g)
    ensures SelectsIncomplete(s, Incomplete(s), [0] + Shift(g))
  {
    assert Incomplete(s) == [s[0]] + Incomplete(s[1..]);
    KeepTakenAt(s, Incomplete(s[1..]), g);
    KeepIncreasing(g);
    KeepCovers(s, g);
  }

  /** Keeping the head: the record positions. */
  lemma KeepTakenAt(s: seq<Todo>, r: seq<Todo>, g: seq<nat>)
    requires s != [] && TakenAt(s[1..], r, g)
    ensures TakenAt(s, [s[0]] + r, [0] + Shift(g))
  {
    var h := Shift(g);
    var f := [0] + h;
    forall k | 0 < k < |f| ensures f[k] < |s| && ([s[0]] + r)[k] == s[f[k]] {
      assert f[k] == h[k - 1] && ([s[0]] + r)[k] == r[k - 1];
      assert s[f[k]] == s[1..][g[k - 1]];
    }
  }

  /** Keeping the head: the positions stay increasing. */
  lemma KeepIncreasing(g: seq<nat>)
    requires Increasing(g)
    ensures Increasing([0] + Shift(g))
  {
    var h := Shift(g);
    var f := [0] + h;
    forall k, l | 0 <= k < l < |f| ensures f[k] < f[l] {
      if k > 0 { assert f[k] == h[k - 1] && f[l] == h[l - 1]; }
    }
  }

  /** Keeping the head: every incomplete position is listed. */
  lemma KeepCovers(s: seq<Todo>, g: seq<nat>)
    requires s != [] && !s[0].complete && CoversIncomplete(s[1..], g)
    ensures CoversIncomplete(s, [0] + Shift(g))
  {
    var h := Shift(g);
    var f := [0] + h;
    forall i | 0 < i < |s| ensures i in f <==> !s[i].complete {
      ShiftMember(g, i - 1);
      assert s[i] == s[1..][i - 1];
      assert i in f <==> i in h;
    }
  }

  /** A position is in the shifted list exactly when its predecessor was in
      the original one. */
  lemma ShiftMember(g: seq<nat>, i: nat)
    ensures i + 1 in Shift(g) <==> i in g
  {
    var h := Shift(g);
    if i in g {
      var k :| 0 <= k < |g| && g[k] == i;
      assert h[k] == i + 1;
    }
    if i + 1 in h {
      var k :| 0 <= k < |h| && h[k] == i + 1;
      assert g[k] == i;
    }
  }

  /** Filtering distributes over concatenation. */
  lemma {:induction false} IncompleteAppend(a: seq<Todo>, b: seq<Todo>)
    ensures Incomplete(a + b) == Incomplete(a) + Incomplete(b)
  {
    if a == [] {
      assert a + b == b;
    } else {
      assert (a + b)[0] == a[0];
      assert (a + b)[1..] == a[1..] + b;
      IncompleteAppend(a[1..], b);
    }
  }

  /** Clearing twice is clearing once. */
  lemma {:induction false} IncompleteIdempotent(s: seq<Todo>)
    ensures Incomplete(Incomplete(s)) == Incomplete(s)
  {
    if s != [] {
      IncompleteIdempotent(s[1..]);
    }
  }

  /** After clearing no completed record is left, and the remaining count is
      what it was. */
  lemma ClearKeepsRemaining(s: seq<Todo>)
    ensures forall t :: t in Incomplete(s) ==> !t.complete
    ensures RemainingCount(Incomplete(s)) == RemainingCount(s)
  {
    IncompleteIdempotent(s);
  }

  /** Clearing keeps ids distinct: it only drops records. */
  lemma ClearPreservesUniqueIds(s: seq<Todo>)
    requires UniqueIds(s)
    ensures UniqueIds(Incomplete(s))
    ensures Ids(Incomplete(s)) <= Ids(s)
  {
    var r := Incomplete(s);
    var f := IncompleteSelects(s);
    forall i, j | 0 <= i < |r| && 0 <= j < |r| && r[i].id == r[j].id
      ensures i == j
    {
      assert s[f[i]].id == s[f[j]].id;
    }
    forall x | x in Ids(r) ensures x in Ids(s) {
      var k :| 0 <= k < |r| && r[k].id == x;
      assert s[f[k]].id == x;
    }
  }

  /** The remaining count is the number of incomplete records. */
  lemma {:induction false} RemainingIsCount(s: seq<Todo>)
    ensures RemainingCount(s) == |IncompleteIndices(s)|
    decreases |s|
  {
    if s != [] {
      var p := s[..|s| - 1];
      var x := s[|s| - 1];
      assert s == p + [x];
      RemainingIsCount(p);
      IncompleteAppend(p, [x]);
      if x.complete {
        assert IncompleteIndices(s) == IncompleteIndices(p);
      } else {
        assert IncompleteIndices(s) == IncompleteIndices(p) + {|p|};
      }
    }
  }

  /** A successful submission adds one to the remaining count. */
  lemma AddRemaining(s: seq<Todo>, name: string, freshId: Id)
    ensures RemainingCount(AddTodo(s, name, freshId))
         == if name == "" then RemainingCount(s) else RemainingCount(s) + 1
  {
    IncompleteAppend(s, [Todo(freshId, name, false)]);
  }

  /** Flipping one record moves the remaining count by one. */
  lemma {:induction false} FlipRemaining(s: seq<Todo>, i: nat)
    requires i < |s|
    ensures RemainingCount(s[i := Flipped(s[i])])
         == if s[i].complete then RemainingCount(s) + 1 else RemainingCount(s) - 1
  {
    var t := s[i := Flipped(s[i])];
    if i == 0 {
      assert t[1..] == s[1..];
    } else {
      assert t[1..] == s[1..][i - 1 := Flipped(s[i])];
      FlipRemaining(s[1..], i - 1);
    }
  }
}
