/** Whole runs of the principal modes: principals do not see each other, and a
    stale key-frame cache leaves a late session out of step (server.cpp,
    principal_tx.cpp). */
module PrincipalRuns {
  import opened Types
  import opened Replica
  import opened FlatState
  import opened Principal

  // ---------- Isolation ----------

  /** One principal and its sessions, and nobody else. */
  ghost function Only(w: World, p: string): World {
    World(map n | n in w.ptx && n == p :: w.ptx[n], map c | c in w.conns && w.conns[c].principal == p :: w.conns[c])
  }

  /** The step is on this principal or one of its sessions. */
  predicate Concerns(step: Step, w: World, p: string) {
    match step
    case Set(name, _, _) => name == p
    case Clear(name, _) => name == p
    case ClearAll(name) => name == p
    case Join(_, name) => name == p
    case ClientReady(c) => c in w.conns && w.conns[c].principal == p
    case Deliver(c) => c in w.conns && w.conns[c].principal == p
    case Leave(c) => c in w.conns && w.conns[c].principal == p
  }

  lemma OnlyPtx(w: World, p: string)
    ensures PtxOf(Only(w, p), p) == PtxOf(w, p) && (p in Only(w, p).ptx <==> p in w.ptx)
  {
  }

  lemma OtherChange(step: Step, w: World, w': World, p: string)
    requires Does(step, w, w') && !Concerns(step, w, p) && (step.Set? || step.Clear? || step.ClearAll?)
    ensures Only(w', p) == Only(w, p)
  {
    hide SetPtx, SetLeaf, ClearPtxOne, ClearPtx, ClearFrames, ClearAllFrames, PtxOf;
    assert Only(w', p).ptx == Only(w, p).ptx;
    assert Only(w', p).conns == Only(w, p).conns;
  }

  lemma OtherSession(step: Step, w: World, w': World, p: string)
    requires Does(step, w, w') && !Concerns(step, w, p) && !(step.Set? || step.Clear? || step.ClearAll?)
    ensures Only(w', p) == Only(w, p)
  {
    hide Builds, ValueFramesOf, ViewOf, Apply, PtxOf;
    assert Only(w', p).ptx == Only(w, p).ptx;
    assert Only(w', p).conns == Only(w, p).conns;
  }

  lemma OtherStep(step: Step, w: World, w': World, p: string)
    requires Does(step, w, w') && !Concerns(step, w, p)
    ensures Only(w', p) == Only(w, p)
  {
    hide Does, Concerns, Only;
    if step.Set? || step.Clear? || step.ClearAll? {
      OtherChange(step, w, w', p);
    } else {
      OtherSession(step, w, w', p);
    }
  }

  lemma OwnChange(step: Step, w: World, w': World, p: string)
    requires Does(step, w, w') && Concerns(step, w, p) && (step.Set? || step.Clear? || step.ClearAll?)
    ensures Does(step, Only(w, p), Only(w', p))
  {
    hide SetPtx, SetLeaf, ClearPtxOne, ClearPtx, ClearFrames, ClearAllFrames, ViewOf;
    OnlyPtx(w, p);
    var v, v' := Only(w, p), Only(w', p);
    assert v'.ptx == v.ptx[p := w'.ptx[p]];
    match step
    case Set(name, key, value) =>
      assert v'.conns == ToReady(v.conns, p, SetLeaf(PtxOf(w, p).flat, "", PtxOf(w, p).next, key, value).frames);
    case Clear(name, key) =>
      assert v'.conns == ToReady(v.conns, p, ClearFrames(PtxOf(w, p).flat, key));
    case ClearAll(name) =>
      assert v'.conns == ToAll(v.conns, p, ClearAllFrames(PtxOf(w, p).flat));
  }

  lemma OwnJoin(w: World, w': World, c: nat, p: string)
    requires Does(Join(c, p), w, w')
    ensures Does(Join(c, p), Only(w, p), Only(w', p))
  {
    hide Builds;
    OnlyPtx(w, p);
    var frames :| Builds(PtxOf(w, p), frames)
      && w'.ptx == w.ptx[p := PtxOf(w, p).(cache := Some(frames))]
      && w'.conns == w.conns[c := Conn(p, false, frames, BLANK)];
    var v, v' := Only(w, p), Only(w', p);
    assert v'.ptx == v.ptx[p := PtxOf(v, p).(cache := Some(frames))];
    assert v'.conns == v.conns[c := Conn(p, false, frames, BLANK)];
  }

  lemma OwnSession(step: Step, w: World, w': World, p: string)
    requires Does(step, w, w') && Concerns(step, w, p) && (step.ClientReady? || step.Deliver? || step.Leave?)
    ensures Does(step, Only(w, p), Only(w', p))
  {
    hide ValueFramesOf, ViewOf, Apply;
    var v, v' := Only(w, p), Only(w', p);
    assert v'.ptx == v.ptx;
    match step
    case ClientReady(c) =>
      if w.conns[c].ready {
        assert v' == v;
      } else {
        var values :| ValueFramesOf(values, ViewOf(w.ptx[w.conns[c].principal]))
          && w'.conns == w.conns[c := w.conns[c].(ready := true, queue := w.conns[c].queue + values)];
        assert v'.conns == v.conns[c := v.conns[c].(ready := true, queue := v.conns[c].queue + values)];
      }
    case Deliver(c) =>
      assert v'.conns == v.conns[c := w'.conns[c]];
    case Leave(c) =>
      assert v'.conns == v.conns - {c};
  }

  lemma OwnStep(step: Step, w: World, w': World, p: string)
    requires Does(step, w, w') && Concerns(step, w, p)
    ensures Does(step, Only(w, p), Only(w', p))
  {
    hide Does, Only;
    match step
    case Set(_, _, _) => OwnChange(step, w, w', p);
    case Clear(_, _) => OwnChange(step, w, w', p);
    case ClearAll(_) => OwnChange(step, w, w', p);
    case Join(c, name) => OwnJoin(w, w', c, p);
    case ClientReady(_) => OwnSession(step, w, w', p);
    case Deliver(_) => OwnSession(step, w, w', p);
    case Leave(_) => OwnSession(step, w, w', p);
  }

  lemma OwnDiscipline(step: Step, w: World, p: string)
    requires Disciplined(step, w) && Concerns(step, w, p)
    ensures Disciplined(step, Only(w, p))
  {
    hide Fresh, Allocates;
    OnlyPtx(w, p);
  }

  lemma OnlyGood(w: World, p: string)
    requires GoodWorld(w)
    ensures GoodWorld(Only(w, p))
  {
    hide GoodView, ViewOf;
  }

  /** The steps of a run that concern one principal. */
  function StepsOf(run: seq<World>, steps: seq<Step>, p: string): seq<Step>
    requires |run| == |steps| + 1
  {
    if steps == [] then []
    else
      var last := |steps| - 1;
      StepsOf(run[..|steps|], steps[..last], p) + if Concerns(steps[last], run[last], p) then [steps[last]] else []
  }

  lemma RunFront(run: seq<World>, steps: seq<Step>)
    requires IsRun(run, steps) && steps != []
    ensures IsRun(run[..|steps|], steps[..|steps| - 1])
    ensures Does(steps[|steps| - 1], run[|steps| - 1], run[|steps|]) && Disciplined(steps[|steps| - 1], run[|steps| - 1])
    ensures GoodWorld(run[|steps|])
  {
    hide Does, Disciplined, GoodWorld;
    var i := |steps| - 1;
    assert Does(steps[i], run[i], run[i + 1]);
  }

  lemma RunSnoc(run: seq<World>, steps: seq<Step>, step: Step, w: World)
    requires IsRun(run, steps) && Does(step, run[|steps|], w) && Disciplined(step, run[|steps|]) && GoodWorld(w)
    ensures IsRun(run + [w], steps + [step])
  {
    hide Does, Disciplined, GoodWorld;
  }

  /** Isolation over whole runs: take away every step on the other principals and
      their sessions, and what remains is a run that ends with this principal, and
      each of its sessions, exactly as they were. */
  lemma {:induction false} RunsAreIsolated(run: seq<World>, steps: seq<Step>, p: string) returns (alone: seq<World>)
    requires IsRun(run, steps)
    ensures IsRun(alone, StepsOf(run, steps, p))
    ensures alone[|alone| - 1] == Only(run[|steps|], p)
    decreases steps
  {
    hide Does, Disciplined, GoodWorld, Only, Concerns, IsRun;
    RunLength(run, steps);
    if steps == [] {
      EmptyRun(run, steps, p);
      alone := run;
    } else {
      var last := |steps| - 1;
      RunFront(run, steps);
      var before := RunsAreIsolated(run[..|steps|], steps[..last], p);
      RunLength(before, StepsOf(run[..|steps|], steps[..last], p));
      if Concerns(steps[last], run[last], p) {
        OwnStep(steps[last], run[last], run[|steps|], p);
        OwnDiscipline(steps[last], run[last], p);
        OnlyGood(run[|steps|], p);
        RunSnoc(before, StepsOf(run[..|steps|], steps[..last], p), steps[last], Only(run[|steps|], p));
        alone := before + [Only(run[|steps|], p)];
      } else {
        OtherStep(steps[last], run[last], run[|steps|], p);
        alone := before;
        var front := StepsOf(run[..|steps|], steps[..last], p);
        assert front + [] == front;
      }
    }
  }

  lemma RunLength(run: seq<World>, steps: seq<Step>)
    requires IsRun(run, steps)
    ensures |run| == |steps| + 1
  {
  }

  lemma EmptyRun(run: seq<World>, steps: seq<Step>, p: string)
    requires IsRun(run, steps) && steps == []
    ensures Only(run[0], p) == run[0]
  {
  }

  // ---------- A stale cache in a run ----------

  const LATE: seq<Step> :=
    [Join(0, "p"), ClientReady(0), Step.Set("p", "k", Null), Join(1, "p"), ClientReady(1)]

  const ITEM: Item := Item("k", TY_NULL, Null)

  /** The store of p before and after the set, with the key frames the first session made it cache. */
  const MADE: Ptx := Ptx(EMPTY_FLAT, 1, Some([SYNC]))
  const GROWN: Ptx := Ptx(Flat(map["k" := Entry(1, TY_NULL, Null)], map[1 := "k"]), 2, Some([SYNC]))

  const FIRST: Conn := Conn("p", true, [SYNC], BLANK)
  const TOLD: Conn := Conn("p", true, [SYNC] + [KeyFrame(1, ITEM), SYNC, ValueFrame(1, ITEM)], BLANK)

  function LateWorlds(): seq<World> {
    [World(map[], map[]),
     World(map["p" := MADE], map[0 := FIRST.(ready := false)]),
     World(map["p" := MADE], map[0 := FIRST]),
     World(map["p" := GROWN], map[0 := TOLD]),
     World(map["p" := GROWN], map[0 := TOLD, 1 := Conn("p", false, [SYNC], BLANK)]),
     World(map["p" := GROWN], map[0 := TOLD, 1 := Conn("p", true, [SYNC, ValueFrame(1, ITEM)], BLANK)])]
  }

  lemma GrownView()
    ensures ViewOf(MADE) == map[] && ViewOf(NEW_PTX) == map[] && ViewOf(GROWN) == map[1 := ITEM]
    ensures SetPtx(MADE, "k", Null) == GROWN
    ensures SetLeaf(EMPTY_FLAT, "", 1, "k", Null).frames == [KeyFrame(1, ITEM), SYNC, ValueFrame(1, ITEM)]
  {
    assert "" + "k" == "k";
  }

  lemma OneValue()
    ensures KeyFramesOf([], map[]) && ValueFramesOf([], map[]) && ValueFramesOf([ValueFrame(1, ITEM)], map[1 := ITEM])
  {
    assert Ids([ValueFrame(1, ITEM)]) == {1} by { assert [ValueFrame(1, ITEM)][0].keyId == 1; }
  }

  lemma FirstSteps()
    ensures Does(LATE[0], LateWorlds()[0], LateWorlds()[1]) && Does(LATE[1], LateWorlds()[1], LateWorlds()[2])
    ensures Does(LATE[2], LateWorlds()[2], LateWorlds()[3])
  {
    hide ViewOf, SetPtx, SetLeaf, KeyFramesOf, ValueFramesOf;
    GrownView();
    OneValue();
    assert [] + [SYNC] == [SYNC] && [SYNC] + [] == [SYNC];
    assert Builds(NEW_PTX, [SYNC]);
    var w := LateWorlds();
    assert w[1].ptx == w[0].ptx["p" := NEW_PTX.(cache := Some([SYNC]))];
    assert w[2].conns == w[1].conns[0 := w[1].conns[0].(ready := true, queue := w[1].conns[0].queue + [])];
    assert w[3].conns == ToReady(w[2].conns, "p", [KeyFrame(1, ITEM), SYNC, ValueFrame(1, ITEM)]);
  }

  lemma LastSteps()
    ensures Does(LATE[3], LateWorlds()[3], LateWorlds()[4]) && Does(LATE[4], LateWorlds()[4], LateWorlds()[5])
  {
    hide ViewOf, SetPtx, SetLeaf, KeyFramesOf, ValueFramesOf;
    GrownView();
    OneValue();
    var w := LateWorlds();
    assert Builds(GROWN, [SYNC]);
    assert w[4].ptx == w[3].ptx["p" := GROWN.(cache := Some([SYNC]))];
    assert w[4].conns == w[3].conns[1 := Conn("p", false, [SYNC], BLANK)];
    assert [SYNC] + [ValueFrame(1, ITEM)] == [SYNC, ValueFrame(1, ITEM)];
    assert w[5].conns == w[4].conns[1 := w[4].conns[1].(ready := true, queue := w[4].conns[1].queue + [ValueFrame(1, ITEM)])];
  }

  /** A run of five steps, all but the second join in the discipline, ends with a
      Ready session whose client, drained, does not have the key: it joined after
      the set and was sent the cached key frames. */
  lemma LateJoinerDisagrees()
    ensures LateWorlds()[0] == World(map[], map[])
    ensures forall i :: 0 <= i < |LATE| ==> Does(LATE[i], LateWorlds()[i], LateWorlds()[i + 1])
    ensures forall i :: 0 <= i < |LATE| && i != 3 ==> Disciplined(LATE[i], LateWorlds()[i])
    ensures
      var late := LateWorlds()[5].conns[1];
      && late.ready && late.principal == "p"
      && !Agrees(ApplyAll(late.replica, late.queue), ViewOf(LateWorlds()[5].ptx["p"]))
  {
    hide Does, Disciplined, ViewOf, Agrees, ApplyAll;
    FirstSteps();
    LastSteps();
    forall i | 0 <= i < |LATE| ensures Does(LATE[i], LateWorlds()[i], LateWorlds()[i + 1]) {
      assert i == 0 || i == 1 || i == 2 || i == 3 || i == 4;
    }
    DisciplinedButOne();
    LateDrained();
  }

  lemma DisciplinedButOne()
    ensures forall i :: 0 <= i < |LATE| && i != 3 ==> Disciplined(LATE[i], LateWorlds()[i])
  {
    hide ViewOf;
    assert Fresh(NEW_PTX);
    forall i | 0 <= i < |LATE| && i != 3 ensures Disciplined(LATE[i], LateWorlds()[i]) {
      assert i == 0 || i == 1 || i == 2 || i == 4;
    }
  }

  lemma LateDrained()
    ensures
      var late := LateWorlds()[5].conns[1];
      && late.ready && late.principal == "p"
      && !Agrees(ApplyAll(late.replica, late.queue), ViewOf(LateWorlds()[5].ptx["p"]))
  {
    hide ViewOf, ApplyAll, Apply;
    GrownView();
    ApplyConcat(BLANK, [SYNC], [ValueFrame(1, ITEM)]);
    OneFrame(BLANK, SYNC);
    OneFrame(BLANK, ValueFrame(1, ITEM));
    assert [SYNC] + [ValueFrame(1, ITEM)] == [SYNC, ValueFrame(1, ITEM)];
    BlankValue();
  }

  lemma BlankValue()
    ensures Apply(BLANK, SYNC) == BLANK && Apply(BLANK, ValueFrame(1, ITEM)).reg.byId == map[]
  {
  }
}
