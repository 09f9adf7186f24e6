/** How `menu_finalize` hands conditions down the menu tree. */
module KconfigPropagate {
  import opened KconfigExpr
  import opened KconfigRewrite
  import opened KconfigDupsPass
  import opened KconfigDupsMeaning
  import opened KconfigAdopt
  import opened KconfigPlaces
  import opened KconfigStore
  import opened Wrappers

  /** `expr_alloc_and`. */
  function AndOpt(a: Option<Expr>, b: Option<Expr>): Option<Expr> {
    if a.None? then b else if b.None? then a else Some(Op(Conj, a.value, b.value))
  }

  /** An entry's own condition joined to the one above it: transform, `expr_alloc_and`, eliminate_dups. */
  function JoinedCondition(above: Option<Expr>, own: Option<Expr>): Option<Expr> {
    match AndOpt(above, if own.None? then None else Some(Transform(own.value)))
    case None => None
    case Some(e) => Some(EliminateDups(e))
  }

  predicate WellTyped(e: Option<Expr>) { e.Some? ==> Orderable(e.value) && TypedLeaves(e.value) }

  predicate TidyOpt(e: Option<Expr>) { e.Some? ==> Tidy(e.value) }

  lemma JoinedMeaning(env: Env, above: Option<Expr>, own: Option<Expr>)
    requires Wf(env) && TidyOpt(above) && WellTyped(own)
    ensures ValueOpt(env, JoinedCondition(above, own)) == AndT(ValueOpt(env, above), ValueOpt(env, own))
    ensures TidyOpt(JoinedCondition(above, own))
  {
    if own.Some? {
      TransformValue(env, own.value);
      TransformNormal(own.value);
      NormalIsNegNormal(Transform(own.value));
      TransformOrderable(own.value);
      TransformTyped(own.value);
    }
    var e := AndOpt(above, if own.None? then None else Some(Transform(own.value)));
    if e.Some? {
      EliminateDupsValue(env, e.value);
      EliminateDupsTidy(e.value);
    }
  }

  /** Whatever is above, no two operands of a joined condition can be joined, and a condition of an entry
      alone is transformed. */
  lemma JoinedSettled(above: Option<Expr>, own: Option<Expr>)
    ensures JoinedCondition(above, own).Some? ==> Settled(JoinedCondition(above, own).value)
    ensures above.None? && own.Some? && Settled(Transform(own.value)) ==>
              JoinedCondition(above, own) == Some(Transform(own.value))
  {
    var e := AndOpt(above, if own.None? then None else Some(Transform(own.value)));
    if e.Some? { EliminateDupsSettles(e.value); }
  }

  /** An entry as the parser leaves it: its `depends on` condition, its prompt's `if`
      condition when it has a prompt, and whether its symbol is of another type than tristate. */
  datatype Entry = Entry(dep: Option<Expr>, prompt: Option<Option<Expr>>, notTristate: bool)

  /** The entry's `dep` after finalization. */
  function FinalDep(above: Option<Expr>, e: Entry): Option<Expr> { JoinedCondition(above, e.dep) }

  /** Its prompt's `visible.expr` after finalization. */
  function FinalVisible(above: Option<Expr>, e: Entry): Option<Expr>
    requires e.prompt.Some?
  {
    var v := JoinedCondition(FinalDep(above, e), e.prompt.value);
    if e.notTristate && v.Some? then Some(TransBool(v.value)) else v
  }

  /** The condition an entry hands to the entries below it. */
  function Below(above: Option<Expr>, e: Entry): Option<Expr> {
    if e.prompt.Some? then FinalVisible(above, e) else FinalDep(above, e)
  }

  predicate WellTypedEntry(e: Entry) {
    WellTyped(e.dep) && (e.prompt.Some? ==> WellTyped(e.prompt.value))
  }

  /** The entry's own conditions, as written. */
  ghost predicate Open(env: Env, e: Entry) {
    ValueOpt(env, e.dep) != No && (e.prompt.Some? ==> ValueOpt(env, e.prompt.value) != No)
  }

  lemma BelowMeaning(env: Env, above: Option<Expr>, e: Entry)
    requires Wf(env) && TidyOpt(above) && WellTypedEntry(e)
    ensures TidyOpt(Below(above, e))
    ensures ValueOpt(env, Below(above, e)) != No <==> ValueOpt(env, above) != No && Open(env, e)
  {
    JoinedMeaning(env, above, e.dep);
    if e.prompt.Some? {
      JoinedMeaning(env, FinalDep(above, e), e.prompt.value);
      var v := JoinedCondition(FinalDep(above, e), e.prompt.value);
      if v.Some? {
        TransBoolKeepsNo(env, v.value);
        TransBoolKeeps(v.value);
      }
    }
  }

  /** For an entry that is tristate, or has no prompt, also the value is that of all conditions together. */
  lemma BelowExact(env: Env, above: Option<Expr>, e: Entry)
    requires Wf(env) && TidyOpt(above) && WellTypedEntry(e) && (e.prompt.Some? ==> !e.notTristate)
    ensures var own := AndT(ValueOpt(env, e.dep), if e.prompt.Some? then ValueOpt(env, e.prompt.value) else Yes);
            ValueOpt(env, Below(above, e)) == AndT(ValueOpt(env, above), own)
  {
    JoinedMeaning(env, above, e.dep);
    if e.prompt.Some? { JoinedMeaning(env, FinalDep(above, e), e.prompt.value); }
  }

  /** For one that is not, the prompt shows under symbols where it was shown under tests of them. */
  lemma VisiblePlaces(above: Option<Expr>, e: Entry, p: Loc)
    requires e.prompt.Some? && e.notTristate && FinalVisible(above, e).Some?
    requires HasLoc(FinalVisible(above, e).value, p)
    ensures !IsSetTest(At(FinalVisible(above, e).value, p))
  {
    TransBoolExact(JoinedCondition(FinalDep(above, e), e.prompt.value).value, p);
  }

  /** The condition at the end of a path of nested entries, outermost first. */
  function AlongPath(above: Option<Expr>, path: seq<Entry>): Option<Expr>
    decreases |path|
  {
    if path == [] then above else AlongPath(Below(above, path[0]), path[1..])
  }

  /** At any depth the finalized condition is non-`no` exactly where every condition written
      on the way down is, in every environment, through all the rewriting in between. */
  lemma {:induction false} PathMeaning(env: Env, above: Option<Expr>, path: seq<Entry>)
    requires Wf(env) && TidyOpt(above) && forall k :: 0 <= k < |path| ==> WellTypedEntry(path[k])
    ensures TidyOpt(AlongPath(above, path))
    ensures ValueOpt(env, AlongPath(above, path)) != No
            <==> ValueOpt(env, above) != No && forall k :: 0 <= k < |path| ==> Open(env, path[k])
    decreases |path|
  {
    if path != [] {
      BelowMeaning(env, above, path[0]);
      PathMeaning(env, Below(above, path[0]), path[1..]);
    }
  }

  /** Submenu adoption end to end: two sibling entries below a common path, the second adopted
      by the first. Wherever the second is visible, so is the first, or the first's symbol is set. */
  lemma AdoptedEntryVisible(env: Env, path: seq<Entry>, s: Symbol, parent: Entry, child: Entry)
    requires Wf(env) && WellTypedEntry(parent) && WellTypedEntry(child)
    requires forall k :: 0 <= k < |path| ==> WellTypedEntry(path[k])
    requires parent.prompt.Some?
    requires var above := AlongPath(None, path); Adopts(s, FinalVisible(above, parent), Below(above, child))
    requires TwoValuedNots(env, Below(AlongPath(None, path), child).value)
    requires s.IsTristateLike()
    requires Open(env, child) && forall k :: 0 <= k < |path| ==> Open(env, path[k])
    ensures Tri(env, s) != No || Open(env, parent)
    ensures !DependsSymbol(Below(AlongPath(None, path), child).value, s) ==> Open(env, parent)
  {
    var above := AlongPath(None, path);
    PathMeaning(env, None, path);
    BelowMeaning(env, above, parent);
    BelowMeaning(env, above, child);
    AdoptionSound(env, s, Below(above, parent), Below(above, child));
  }

  /** All conditions written along a path. */
  function Together(env: Env, path: seq<Entry>): Tristate {
    if path == [] then Yes
    else
      var e := path[0];
      AndT(AndT(ValueOpt(env, e.dep), if e.prompt.Some? then ValueOpt(env, e.prompt.value) else Yes), Together(env, path[1..]))
  }

  /** Where every entry with a prompt is tristate, the finalized condition has their value. */
  lemma {:induction false} PathValue(env: Env, above: Option<Expr>, path: seq<Entry>)
    requires Wf(env) && TidyOpt(above)
    requires forall k :: 0 <= k < |path| ==> WellTypedEntry(path[k]) && (path[k].prompt.Some? ==> !path[k].notTristate)
    ensures ValueOpt(env, AlongPath(above, path)) == AndT(ValueOpt(env, above), Together(env, path))
    decreases |path|
  {
    if path != [] {
      BelowMeaning(env, above, path[0]);
      BelowExact(env, above, path[0]);
      PathValue(env, Below(above, path[0]), path[1..]);
    }
  }
}
