/** Laws of the combinators the execution semantics is written with. */
module ControlFlowBehaviours {
  import opened ControlFlowGraph
  import opened ControlFlowSemantics

  lemma ThenIntro(a: Behaviour, c: Behaviour, u: Trace, v: Trace, o: Outcome)
    requires a(u, Normal) && c(v, o)
    ensures Then(a, c)(u + v, o)
  {
    assert (u + v)[..|u|] == u && (u + v)[|u|..] == v;
    assert SplitsNormally(a, c, u + v, o);
  }

  lemma ThenStops(a: Behaviour, c: Behaviour, t: Trace, o: Outcome)
    requires a(t, o) && o != Normal
    ensures Then(a, c)(t, o)
  {
  }

  /** Where `a` ended in an execution of `Then(a, c)`, if it did not stop it. */
  lemma ThenElim(a: Behaviour, c: Behaviour, t: Trace, o: Outcome) returns (stopped: bool, i: nat)
    requires Then(a, c)(t, o)
    ensures i <= |t|
    ensures stopped ==> o != Normal && a(t, o)
    ensures !stopped ==> a(t[..i], Normal) && c(t[i..], o)
  {
    stopped := o != Normal && a(t, o);
    i := 0;
    if !stopped {
      assert SplitsNormally(a, c, t, o);
      i :| 0 <= i <= |t| && a(t[..i], Normal) && c(t[i..], o);
    }
  }

  lemma BodyThenIntro(body: Behaviour, next: Behaviour, u: Trace, v: Trace, o: Outcome)
    requires (body(u, Normal) || body(u, Continued)) && next(v, o)
    ensures BodyThen(body, next)(u + v, o)
  {
    assert (u + v)[..|u|] == u && (u + v)[|u|..] == v;
    assert SplitsInLoop(body, next, u + v, o);
  }

  /** How the body ended in an execution of `BodyThen(body, next)`. */
  lemma BodyThenElim(body: Behaviour, next: Behaviour, t: Trace, o: Outcome) returns (ended: Outcome, i: nat)
    requires BodyThen(body, next)(t, o)
    ensures i <= |t| && body(t[..i], ended)
    ensures ended == Normal || ended == Continued ==> next(t[i..], o)
    ensures ended == Broke ==> o == Normal && i == |t|
    ensures ended == Returned || ended == Reverted ==> o == ended && i == |t|
  {
    assert t[..|t|] == t;
    if o == Normal && body(t, Broke) {
      ended, i := Broke, |t|;
    } else if (o == Returned || o == Reverted) && body(t, o) {
      ended, i := o, |t|;
    } else {
      assert SplitsInLoop(body, next, t, o);
      i :| 0 <= i <= |t| && (body(t[..i], Normal) || body(t[..i], Continued)) && next(t[i..], o);
      ended := if body(t[..i], Normal) then Normal else Continued;
    }
  }

  lemma LoopElim(c: Behaviour, body: Behaviour, post: Behaviour, t: Trace, o: Outcome) returns (n: nat)
    requires Loop(c, body, post)(t, o)
    ensures Iterate(n, c, body, post)(t, o)
  {
    assert Iterates(c, body, post, t, o);
    n :| Iterate(n, c, body, post)(t, o);
  }

  lemma LoopDoElim(body: Behaviour, c: Behaviour, t: Trace, o: Outcome) returns (n: nat)
    requires LoopDo(body, c)(t, o)
    ensures IterateDo(n, body, c)(t, o)
  {
    assert IteratesDo(body, c, t, o);
    n :| IterateDo(n, body, c)(t, o);
  }

  /** A behaviour used at most once in `Then(a, Choice(e, BodyThen(b, Then(p, _))))` may be any approximation. */
  ghost function Unrolled(c: Behaviour, body: Behaviour, post: Behaviour, again: Behaviour): Behaviour {
    Then(c, Choice(Emit([]), BodyThen(body, Then(post, again))))
  }

  /** One more round in front of a loop is again an execution of the loop. */
  lemma LoopUnrolls(c: Behaviour, body: Behaviour, post: Behaviour, t: Trace, o: Outcome)
    requires Unrolled(c, body, post, Loop(c, body, post))(t, o)
    ensures Loop(c, body, post)(t, o)
  {
    var again := Loop(c, body, post);
    var stopped, i := ThenElim(c, Choice(Emit([]), BodyThen(body, Then(post, again))), t, o);
    if stopped {
      ThenStops(c, Choice(Emit([]), BodyThen(body, Then(post, Nothing))), t, o);
      assert Iterate(0, c, body, post)(t, o);
      return;
    }
    var n := BodyApproximates(c, body, post, t[i..], o);
    ThenIntro(c, Choice(Emit([]), BodyThen(body, Then(post, Iterate(n, c, body, post)))), t[..i], t[i..], o);
    assert t[..i] + t[i..] == t;
    assert Iterate(n + 1, c, body, post)(t, o);
  }

  lemma BodyApproximates(c: Behaviour, body: Behaviour, post: Behaviour, t: Trace, o: Outcome) returns (n: nat)
    requires Choice(Emit([]), BodyThen(body, Then(post, Loop(c, body, post))))(t, o)
    ensures Choice(Emit([]), BodyThen(body, Then(post, Iterate(n, c, body, post))))(t, o)
  {
    n := 0;
    if BodyThen(body, Then(post, Loop(c, body, post)))(t, o) {
      var ended, i := BodyThenElim(body, Then(post, Loop(c, body, post)), t, o);
      assert t[..|t|] == t;
      if ended == Normal || ended == Continued {
        var stopped, j := ThenElim(post, Loop(c, body, post), t[i..], o);
        if stopped {
          ThenStops(post, Iterate(n, c, body, post), t[i..], o);
        } else {
          assert Iterates(c, body, post, t[i..][j..], o);
          n :| Iterate(n, c, body, post)(t[i..][j..], o);
          ThenIntro(post, Iterate(n, c, body, post), t[i..][..j], t[i..][j..], o);
          assert t[i..][..j] + t[i..][j..] == t[i..];
        }
        BodyThenIntro(body, Then(post, Iterate(n, c, body, post)), t[..i], t[i..], o);
        assert t[..i] + t[i..] == t;
      }
    }
  }

  ghost function UnrolledDo(body: Behaviour, c: Behaviour, again: Behaviour): Behaviour {
    BodyThen(body, Then(c, Choice(Emit([]), again)))
  }

  lemma LoopDoUnrolls(body: Behaviour, c: Behaviour, t: Trace, o: Outcome)
    requires UnrolledDo(body, c, LoopDo(body, c))(t, o)
    ensures LoopDo(body, c)(t, o)
  {
    var again := LoopDo(body, c);
    var ended, i := BodyThenElim(body, Then(c, Choice(Emit([]), again)), t, o);
    assert t[..|t|] == t;
    if ended == Normal || ended == Continued {
      var stopped, j := ThenElim(c, Choice(Emit([]), again), t[i..], o);
      var u, v := t[i..][..j], t[i..][j..];
      assert u + v == t[i..];
      assert t[..i] + t[i..] == t;
      if stopped {
        ThenStops(c, Choice(Emit([]), Nothing), t[i..], o);
        BodyThenIntro(body, Then(c, Choice(Emit([]), Nothing)), t[..i], t[i..], o);
        assert IterateDo(0, body, c)(t, o);
      } else if Emit([])(v, o) {
        ThenIntro(c, Choice(Emit([]), Nothing), u, v, o);
        BodyThenIntro(body, Then(c, Choice(Emit([]), Nothing)), t[..i], t[i..], o);
        assert IterateDo(0, body, c)(t, o);
      } else {
        assert IteratesDo(body, c, v, o);
        var n: nat :| IterateDo(n, body, c)(v, o);
        ThenIntro(c, Choice(Emit([]), IterateDo(n, body, c)), u, v, o);
        BodyThenIntro(body, Then(c, Choice(Emit([]), IterateDo(n, body, c))), t[..i], t[i..], o);
        assert IterateDo(n + 1, body, c)(t, o);
      }
    } else {
      assert IterateDo(0, body, c)(t, o);
    }
  }

  /** What leaving a loop body with outcome `ended` does to the loop. */
  function LoopOutcome(ended: Outcome): Outcome {
    if ended == Broke then Normal else ended
  }

  lemma BodyLeaves(body: Behaviour, next: Behaviour, t: Trace, ended: Outcome)
    requires body(t, ended) && ended != Normal && ended != Continued
    ensures BodyThen(body, next)(t, LoopOutcome(ended))
  {
  }
}
