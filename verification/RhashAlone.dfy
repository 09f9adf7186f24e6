/** An insertion with nothing else going on: what comes of it. */
module RhashAlone {
  import opened RhashInsert

  /** No thread holds a bucket. */
  ghost predicate NoneHeld(s: State) { forall p :: p in s.pc ==> !s.pc[p].Holding? }

  /** Steps of one thread, none of them past a bucket that could not be allocated. */
  predicate Own(o: nat, run: seq<Action>) {
    forall a :: a in run ==> a in {Begin(o), Visit(o), Commit(o)} || (a.Meet? && a.obj == o)
  }

  ghost predicate HasKey(c: Config, s: State, o: nat) { exists x :: x in s.home && c.key(x) == c.key(o) }

  /** What the insertion of `o` makes of a table: with its key in it it is refused, or put in front of the
      object found, otherwise it becomes an entry of the last table. */
  ghost predicate Outcome(c: Config, s: State, o: nat, s': State) {
    if !HasKey(c, s, o) then
      s'.Pc(o) == Inserted && s.count > 0 && s'.home == s.home[o := s.count - 1] && s'.under == s.under
    else if !c.rhlist then s'.Pc(o) == Refused && s'.home == s.home && s'.under == s.under
    else
      s'.Pc(o) == Inserted &&
      exists x :: x in s.home && c.key(x) == c.key(o)
                  && s'.home == (s.home - {x})[o := s.home[x]] && s'.under == s.under[o := x]
  }

  /** The thread has come to table `t`, and its key is in none before. */
  ghost predicate Visiting(c: Config, s: State, o: nat, t: nat) {
    && s.Pc(o) == At(t) && t < s.count && NoneHeld(s)
    && forall x :: x in s.home && c.key(x) == c.key(o) ==> t <= s.home[x] < s.count
  }

  lemma MeetsAlone(c: Config, s: State, o: nat, t: nat, x: nat)
    requires Visiting(c, s, o, t) && x in s.home && s.home[x] == t && c.key(x) == c.key(o)
    ensures Enabled(c, s, Meet(o, x)) && Outcome(c, s, o, After(c, s, Meet(o, x)))
  {
    assert HasKey(c, s, o);
  }

  lemma HoldsAlone(c: Config, s: State, o: nat, t: nat)
    requires Visiting(c, s, o, t) && t + 1 == s.count && !Present(c, s, t, o)
    ensures Enabled(c, s, Visit(o)) && Enabled(c, After(c, s, Visit(o)), Commit(o))
    ensures Outcome(c, s, o, After(c, After(c, s, Visit(o)), Commit(o)))
  {
  }

  lemma VisitsAlone(c: Config, s: State, o: nat, t: nat)
    requires Visiting(c, s, o, t) && t + 1 < s.count && !Present(c, s, t, o)
    ensures Enabled(c, s, Visit(o)) && Visiting(c, After(c, s, Visit(o)), o, t + 1)
    ensures var s1 := After(c, s, Visit(o)); s1.home == s.home && s1.under == s.under && s1.count == s.count
  {
  }

  lemma {:induction false} FromTable(c: Config, s: State, o: nat, t: nat) returns (run: seq<Action>)
    requires Visiting(c, s, o, t)
    ensures Own(o, run) && Runs(c, s, run) && Outcome(c, s, o, Final(c, s, run))
    decreases s.count - t
  {
    if x :| x in s.home && s.home[x] == t && c.key(x) == c.key(o) {
      MeetsAlone(c, s, o, t, x);
      RunsCons(c, s, Meet(o, x), []);
      run := [Meet(o, x)];
    } else if t + 1 < s.count {
      VisitsAlone(c, s, o, t);
      run := FromTable(c, After(c, s, Visit(o)), o, t + 1);
      RunsCons(c, s, Visit(o), run);
      run := [Visit(o)] + run;
    } else {
      HoldsAlone(c, s, o, t);
      var s1 := After(c, s, Visit(o));
      RunsCons(c, s1, Commit(o), []);
      RunsCons(c, s, Visit(o), [Commit(o)]);
      run := [Visit(o), Commit(o)];
    }
  }

  /** While no bucket is locked an insertion comes to its end by its own steps: its object becomes an entry of the
      last table exactly if no object of the key was in any, and the table is otherwise as it was. */
  lemma InsertExact(c: Config, s: State, o: nat) returns (run: seq<Action>)
    requires Sound(c) && Inv(c, s) && NoneHeld(s) && s.Pc(o) == Start && o !in s.home
    ensures Own(o, run) && Runs(c, s, run) && Outcome(c, s, o, Final(c, s, run))
  {
    var s1 := After(c, s, Begin(o));
    run := FromTable(c, s1, o, s.first);
    RunsCons(c, s, Begin(o), run);
    run := [Begin(o)] + run;
  }
}
