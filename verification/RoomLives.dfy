/** Runs that go past the last leave: the supervisor starts the room again under the same id, and
    what the first process counted starts over. */
module RoomLives {
  import opened Options
  import opened Room
  import opened RoomRuns

  lemma {:induction false} AfterConcat(s: State, a: seq<Call>, b: seq<Call>)
    ensures After(s, a + b) == After(After(s, a), b)
    decreases |a|
  {
    hide Handle;
    if a == [] {
      assert a + b == b;
    } else {
      assert (a + b)[1..] == a[1..] + b;
      AfterConcat(Handle(s, a[0]).state, a[1..], b);
    }
  }

  function IssuedBy(s: State, c: Call): seq<int> {
    var out := Handle(s, c);
    if out.reply.CardAdded? then [out.reply.card.id] else []
  }

  lemma IssuedCons(s: State, calls: seq<Call>)
    requires calls != []
    ensures Issued(s, calls) == IssuedBy(s, calls[0]) + Issued(Handle(s, calls[0]).state, calls[1..])
  {
    hide Handle;
  }

  lemma Associate(a: seq<int>, b: seq<int>, c: seq<int>)
    ensures a + (b + c) == a + b + c
  {
  }

  lemma {:induction false} IssuedConcat(s: State, a: seq<Call>, b: seq<Call>)
    ensures Issued(s, a + b) == Issued(s, a) + Issued(After(s, a), b)
    decreases |a|
  {
    hide Handle, IssuedBy, Issued;
    if a == [] {
      assert a + b == b && [] + Issued(s, b) == Issued(s, b);
      NothingIssued(s);
    } else {
      var t := Handle(s, a[0]).state;
      assert (a + b)[1..] == a[1..] + b;
      IssuedCons(s, a + b);
      IssuedCons(s, a);
      IssuedConcat(t, a[1..], b);
      Associate(IssuedBy(s, a[0]), Issued(t, a[1..]), Issued(After(s, a), b));
    }
  }

  lemma NothingIssued(s: State)
    ensures Issued(s, []) == []
  {
  }

  /** The first id out of a room that has given out none is the base, however many lives it takes. */
  lemma {:induction false} FirstIsBase(s: State, calls: seq<Call>)
    requires Inv(s) && s.nextId == CUSTOM_ID_BASE
    ensures Issued(s, calls) != [] ==> Issued(s, calls)[0] == CUSTOM_ID_BASE
    decreases |calls|
  {
    hide Inv, Handle, Ends;
    if calls != [] {
      var t := Handle(s, calls[0]).state;
      InvStep(s, calls[0]);
      if Ends(s, calls[0]) {
        EndsInInit(s, calls[0]);
        EndIssuesNothing(s, calls[0]);
        FirstIsBase(t, calls[1..]);
      } else {
        IssueOrKeep(s, calls[0]);
        if IssuedBy(s, calls[0]) == [] {
          FirstIsBase(t, calls[1..]);
        }
      }
      IssuedCons(s, calls);
    }
  }

  lemma EndIssuesNothing(s: State, c: Call)
    requires Ends(s, c)
    ensures IssuedBy(s, c) == []
  {
  }

  lemma IssueOrKeep(s: State, c: Call)
    requires !Ends(s, c)
    ensures IssuedBy(s, c) == if Handle(s, c).reply.CardAdded? then [s.nextId] else []
    ensures IssuedBy(s, c) == [] ==> Handle(s, c).state.nextId == s.nextId
  {
    hide Broadcast, FindFrom, EndConditionMet, Without, NextHost, CurrentCardId, DropCard, FindCard, ZeroScores;
  }

  /** The number of calls before the first that ends the room, or all of them. */
  function FirstEnd(s: State, calls: seq<Call>): (k: nat)
    ensures k <= |calls|
    decreases |calls|
  {
    if calls == [] || Ends(s, calls[0]) then 0 else 1 + FirstEnd(Handle(s, calls[0]).state, calls[1..])
  }

  lemma {:induction false} FirstEndIs(s: State, calls: seq<Call>)
    ensures var k := FirstEnd(s, calls);
            OneLife(s, calls[..k]) && (k < |calls| ==> Ends(After(s, calls[..k]), calls[k])) &&
            forall j | 0 <= j < k :: !Ends(After(s, calls[..j]), calls[j])
    decreases |calls|
  {
    hide Handle, Ends;
    if calls != [] && !Ends(s, calls[0]) {
      var t, rest := Handle(s, calls[0]).state, calls[1..];
      var k := FirstEnd(t, rest);
      FirstEndIs(t, rest);
      assert calls[..k + 1][1..] == rest[..k];
      forall j | 0 <= j < k + 1
        ensures !Ends(After(s, calls[..j]), calls[j])
      {
        if j > 0 {
          assert calls[..j][1..] == rest[..j - 1];
        }
      }
    }
  }

  /** One life gives out an id, ends, and a later life gives one out too. */
  predicate TwoLivesIssue(s: State, calls: seq<Call>) {
    exists k | 0 <= k < |calls| :: SplitsAt(s, calls, k)
  }

  predicate SplitsAt(s: State, calls: seq<Call>, k: nat)
    requires k < |calls|
  {
    Ends(After(s, calls[..k]), calls[k]) && Issued(s, calls[..k]) != [] &&
    Issued(After(s, calls[..k + 1]), calls[k + 1..]) != []
  }

  predicate Repeats(ids: seq<int>) {
    exists i, j | 0 <= i < j < |ids| :: ids[i] == ids[j]
  }

  lemma RisingNeverRepeats(ids: seq<int>, lo: int, hi: int)
    requires RisesWithin(ids, lo, hi)
    ensures !Repeats(ids)
  {
  }

  /** A run and the run that is left of it after its first end. */
  lemma AtFirstEnd(s: State, calls: seq<Call>, k: nat)
    requires k < |calls| && Ends(After(s, calls[..k]), calls[k])
    ensures var t := Init(After(s, calls[..k]).maxPlayers);
            After(s, calls[..k + 1]) == t &&
            Issued(s, calls[..k + 1]) == Issued(s, calls[..k]) &&
            Issued(s, calls) == Issued(s, calls[..k]) + Issued(t, calls[k + 1..])
  {
    hide Handle, Ends, Issued, IssuedBy;
    var one := [calls[k]];
    EndsInInit(After(s, calls[..k]), calls[k]);
    EndIssuesNothing(After(s, calls[..k]), calls[k]);
    assert calls[..k + 1] == calls[..k] + one && calls == calls[..k + 1] + calls[k + 1..];
    AfterConcat(s, calls[..k], one);
    OneCall(After(s, calls[..k]), calls[k]);
    IssuedConcat(s, calls[..k], one);
    IssuedConcat(s, calls[..k + 1], calls[k + 1..]);
    assert Issued(s, calls[..k]) + [] == Issued(s, calls[..k]);
  }

  lemma OneCall(s: State, c: Call)
    ensures After(s, [c]) == Handle(s, c).state && Issued(s, [c]) == IssuedBy(s, c)
  {
    hide Handle;
    assert [c][1..] == [];
    assert IssuedBy(s, c) + [] == IssuedBy(s, c);
  }

  /** A split of the rest is a split of the whole, and the other way round for later ends. */
  lemma SplitShifts(s: State, calls: seq<Call>, k: nat, j: nat)
    requires k < |calls| && Ends(After(s, calls[..k]), calls[k]) && Issued(s, calls[..k]) == []
    requires j < |calls| - k - 1
    ensures SplitsAt(s, calls, k + 1 + j) <==> SplitsAt(After(s, calls[..k + 1]), calls[k + 1..], j)
  {
    hide Ends, Issued, After;
    var rest, m := calls[k + 1..], k + 1 + j;
    AtFirstEnd(s, calls, k);
    assert calls[..m] == calls[..k + 1] + rest[..j] && calls[..m + 1] == calls[..k + 1] + rest[..j + 1];
    assert calls[m + 1..] == rest[j + 1..];
    AfterConcat(s, calls[..k + 1], rest[..j]);
    AfterConcat(s, calls[..k + 1], rest[..j + 1]);
    IssuedConcat(s, calls[..k + 1], rest[..j]);
    var t := After(s, calls[..k + 1]);
    assert [] + Issued(t, rest[..j]) == Issued(t, rest[..j]);
  }

  /** Over any run of a room, restarts included, a custom card id is given out twice exactly when
      two lives of the room each give one out. */
  lemma {:induction false} IdsRepeatExactlyWhen(maxPlayers: nat, calls: seq<Call>)
    ensures Repeats(Issued(Init(maxPlayers), calls)) <==> TwoLivesIssue(Init(maxPlayers), calls)
    decreases |calls|
  {
    hide Ends, Issued, After, SplitsAt, FirstEnd, Handle;
    var s := Init(maxPlayers);
    var k := FirstEnd(s, calls);
    InitInv(maxPlayers);
    FirstEndIs(s, calls);
    IdsNeverReused(s, calls[..k]);
    RisingNeverRepeats(Issued(s, calls[..k]), s.nextId, After(s, calls[..k]).nextId);
    if k == |calls| {
      assert calls[..k] == calls;
      forall j | 0 <= j < |calls|
        ensures !SplitsAt(s, calls, j)
      {
        NoEndNoSplit(s, calls, j);
      }
    } else {
      AfterFirstEnd(maxPlayers, calls, k);
    }
  }

  lemma NoEndNoSplit(s: State, calls: seq<Call>, j: nat)
    requires j < |calls| && !Ends(After(s, calls[..j]), calls[j])
    ensures !SplitsAt(s, calls, j)
  {
  }

  lemma AfterFirstEnd(maxPlayers: nat, calls: seq<Call>, k: nat)
    requires k < |calls| && Ends(After(Init(maxPlayers), calls[..k]), calls[k])
    requires !Repeats(Issued(Init(maxPlayers), calls[..k]))
    requires forall j | 0 <= j < k :: !Ends(After(Init(maxPlayers), calls[..j]), calls[j])
    ensures Repeats(Issued(Init(maxPlayers), calls)) <==> TwoLivesIssue(Init(maxPlayers), calls)
    decreases |calls|, 0
  {
    hide Ends, Issued, After, SplitsAt, FirstEnd, Handle;
    var s, rest := Init(maxPlayers), calls[k + 1..];
    var t := After(s, calls[..k + 1]);
    AtFirstEnd(s, calls, k);
    InitInv(maxPlayers);
    InvRun(s, calls[..k + 1]);
    var x, y := Issued(s, calls[..k]), Issued(t, rest);
    forall j | 0 <= j < k
      ensures !SplitsAt(s, calls, j)
    {
      NoEndNoSplit(s, calls, j);
    }
    MaxStays(s, calls[..k]);
    if x == [] {
      assert x + y == y;
      IdsRepeatExactlyWhen(maxPlayers, rest);
      NoSplitHere(s, calls, k);
      forall j | 0 <= j < |rest|
        ensures SplitsAt(s, calls, k + 1 + j) <==> SplitsAt(t, rest, j)
      {
        SplitShifts(s, calls, k, j);
      }
      forall m | k < m < |calls| && SplitsAt(s, calls, m)
        ensures TwoLivesIssue(t, rest)
      {
        assert SplitsAt(s, calls, k + 1 + (m - k - 1));
        assert SplitsAt(t, rest, m - k - 1);
      }
    } else if y == [] {
      assert x + y == x;
      forall m | k <= m < |calls|
        ensures !SplitsAt(s, calls, m)
      {
        NothingLater(s, calls, k, m);
      }
    } else {
      FirstIsBase(s, calls[..k]);
      FirstIsBase(t, rest);
      assert (x + y)[0] == (x + y)[|x|];
      SplitHere(s, calls, k);
    }
  }

  lemma {:induction false} MaxStays(s: State, calls: seq<Call>)
    ensures After(s, calls).maxPlayers == s.maxPlayers
    decreases |calls|
  {
    hide Handle;
    if calls != [] {
      MaxKept(s, calls[0]);
      MaxStays(Handle(s, calls[0]).state, calls[1..]);
    }
  }

  lemma SplitHere(s: State, calls: seq<Call>, k: nat)
    requires k < |calls| && Ends(After(s, calls[..k]), calls[k]) && Issued(s, calls[..k]) != []
    requires Issued(After(s, calls[..k + 1]), calls[k + 1..]) != []
    ensures SplitsAt(s, calls, k)
  {
  }

  lemma NoSplitHere(s: State, calls: seq<Call>, k: nat)
    requires k < |calls| && Issued(s, calls[..k]) == []
    ensures !SplitsAt(s, calls, k)
  {
  }

  lemma NothingLater(s: State, calls: seq<Call>, k: nat, m: nat)
    requires k <= m < |calls| && Issued(After(s, calls[..k + 1]), calls[k + 1..]) == []
    ensures !SplitsAt(s, calls, m)
  {
    hide Ends, Issued, After;
    var t, rest := After(s, calls[..k + 1]), calls[k + 1..];
    var j := m - k;
    assert rest == rest[..j] + rest[j..] && rest[j..] == calls[m + 1..];
    assert calls[..m + 1] == calls[..k + 1] + rest[..j];
    IssuedConcat(t, rest[..j], rest[j..]);
    AfterConcat(s, calls[..k + 1], rest[..j]);
  }
}
