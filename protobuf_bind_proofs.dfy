/** What the binding compiler guarantees, proved by structural induction
    over the field specification. */
module ProtobufBindProofs {
  import opened Outcome
  import opened Ast
  import opened Parser
  import opened ProtobufBind

  // ---------------------------------------------------------------------
  // Shape: one slot per field, at every depth, in field order

  /** A successful compilation mirrors the specification: the pattern and
      the expression have one slot per field at every nesting depth, leaves
      bind exactly the user identifier and read exactly `field_get(parent,
      key)`, and a nested message keeps its own unwrapped tuple pattern and
      gets one `let` of a gensym'd name before its own tuple. */
  lemma {:induction false} MessageShape(m: Message, parent: Expr, next: nat)
    requires CompileMessage(m, parent, next).Ok?
    ensures PatMirrors(m, CompileMessage(m, parent, next).value.pat)
    ensures ExprMirrors(m, parent, CompileMessage(m, parent, next).value.expr)
  {
    FieldsShape(m.fields, parent, next);
  }

  lemma {:induction false} FieldsShape(fs: seq<Field>, parent: Expr, next: nat)
    requires CompileFields(fs, parent, next).Ok?
    ensures forall i :: 0 <= i < |fs| ==>
      SlotPat(fs[i], CompileFields(fs, parent, next).value.pats[i]) &&
      SlotExpr(fs[i], parent, CompileFields(fs, parent, next).value.exprs[i])
  {
    if |fs| > 0 {
      var init := fs[..|fs| - 1];
      FieldsShape(init, parent, next);
      var os := CompileFields(init, parent, next).value;
      FieldShape(fs[|fs| - 1], parent, os.next);
      assert forall i :: 0 <= i < |init| ==> init[i] == fs[i];
    }
  }

  lemma {:induction false} FieldShape(f: Field, parent: Expr, next: nat)
    requires CompileField(f, parent, next).Ok?
    ensures SlotPat(f, CompileField(f, parent, next).value.pat)
    ensures SlotExpr(f, parent, CompileField(f, parent, next).value.expr)
  {
    match f.value
    case SingleValue(_) =>
    case MessageValue(sub) =>
      MessageShape(sub, EVar(Gensym(GensymBase, next)), next + 1);
  }

  /** An empty specification compiles to `()` bound to `()`, not to an error. */
  lemma EmptyMessage(expr: Expr, next: nat)
    ensures CompileMessage(Message([]), expr, next) == Ok(Out(PTuple([]), ETuple([]), next))
  {
  }

  /** The pattern and the expression of a correct output mirror each other,
      so the generated `let` destructures exactly what it computes. */
  lemma {:induction false} MirrorsCorrespond(m: Message, parent: Expr, p: Pat, e: Expr)
    requires PatMirrors(m, p) && ExprMirrors(m, parent, e)
    ensures Corresponds(p, e)
  {
    forall i | 0 <= i < |m.fields|
      ensures Corresponds(p.elems[i], e.elems[i])
    {
      var f := m.fields[i];
      match f.value
      case SingleValue(_) =>
      case MessageValue(sub) =>
        var blk := e.elems[i];
        MirrorsCorrespond(sub, EVar(blk.binder), p.elems[i], blk.body);
    }
  }

  /** The pattern half of a correct output is fixed by the specification alone. */
  lemma {:induction false} PatMirrorsUnique(m: Message, p1: Pat, p2: Pat)
    requires PatMirrors(m, p1) && PatMirrors(m, p2)
    ensures p1 == p2
  {
    forall i | 0 <= i < |m.fields|
      ensures p1.elems[i] == p2.elems[i]
    {
      match m.fields[i].value
      case SingleValue(_) =>
      case MessageValue(sub) =>
        PatMirrorsUnique(sub, p1.elems[i], p2.elems[i]);
    }
    assert p1.elems == p2.elems;
  }

  // ---------------------------------------------------------------------
  // The gensym counter

  /** Each nested-message field, at any depth, takes exactly one counter value. */
  lemma {:induction false} MessageCounter(m: Message, parent: Expr, next: nat)
    requires CompileMessage(m, parent, next).Ok?
    ensures CompileMessage(m, parent, next).value.next == next + NestedCount(m)
  {
    FieldsCounter(m.fields, parent, next);
  }

  lemma {:induction false} FieldsCounter(fs: seq<Field>, parent: Expr, next: nat)
    requires CompileFields(fs, parent, next).Ok?
    ensures CompileFields(fs, parent, next).value.next == next + NestedCountOf(fs)
  {
    if |fs| > 0 {
      var init := fs[..|fs| - 1];
      FieldsCounter(init, parent, next);
      FieldCounter(fs[|fs| - 1], parent, CompileFields(init, parent, next).value.next);
    }
  }

  lemma {:induction false} FieldCounter(f: Field, parent: Expr, next: nat)
    requires CompileField(f, parent, next).Ok?
    ensures CompileField(f, parent, next).value.next == next + FieldNestedCount(f)
  {
    match f.value
    case SingleValue(_) =>
    case MessageValue(sub) =>
      MessageCounter(sub, EVar(Gensym(GensymBase, next)), next + 1);
  }

  /** One unfolding of `CompileFields` on a successful run. */
  lemma FieldsLast(fs: seq<Field>, parent: Expr, next: nat)
    requires |fs| > 0 && CompileFields(fs, parent, next).Ok?
    ensures CompileFields(fs[..|fs| - 1], parent, next).Ok?
    ensures var os := CompileFields(fs[..|fs| - 1], parent, next).value;
      var r := CompileField(fs[|fs| - 1], parent, os.next);
      r.Ok? &&
      CompileFields(fs, parent, next).value ==
        Outs(os.pats + [r.value.pat], os.exprs + [r.value.expr], r.value.next)
  {
  }

  /** Slot `i` of the fields' output is field `i` compiled against the same
      parent, with the counter left by fields `0..i`. */
  lemma {:induction false} FieldAt(fs: seq<Field>, parent: Expr, next: nat, i: nat)
    requires CompileFields(fs, parent, next).Ok?
    requires i < |fs|
    ensures CompileField(fs[i], parent, next + NestedCountOf(fs[..i])) ==
      Ok(Out(CompileFields(fs, parent, next).value.pats[i],
             CompileFields(fs, parent, next).value.exprs[i],
             next + NestedCountOf(fs[..i + 1])))
  {
    var k := |fs| - 1;
    var init := fs[..k];
    FieldsLast(fs, parent, next);
    var os := CompileFields(init, parent, next).value;
    var all := CompileFields(fs, parent, next).value;
    if i < k {
      FieldAt(init, parent, next, i);
      assert fs[..i] == init[..i] && fs[..i + 1] == init[..i + 1];
      assert fs[i] == init[i];
      assert all.pats[i] == os.pats[i] && all.exprs[i] == os.exprs[i];
    } else {
      FieldsCounter(init, parent, next);
      FieldCounter(fs[k], parent, os.next);
      assert fs[..i] == init;
      assert fs[..i + 1] == fs;
    }
  }

  /** Element `i` of the message's tuple pattern and tuple expression comes
      from field `i`, compiled against the expression given to the message. */
  lemma MessageFieldsAt(m: Message, parent: Expr, next: nat)
    requires CompileMessage(m, parent, next).Ok?
    ensures forall i :: 0 <= i < |m.fields| ==>
      CompileField(m.fields[i], parent, next + NestedCountOf(m.fields[..i])) ==
      Ok(Out(CompileMessage(m, parent, next).value.pat.elems[i],
             CompileMessage(m, parent, next).value.expr.elems[i],
             next + NestedCountOf(m.fields[..i + 1])))
  {
    forall i | 0 <= i < |m.fields|
      ensures CompileField(m.fields[i], parent, next + NestedCountOf(m.fields[..i])) ==
        Ok(Out(CompileMessage(m, parent, next).value.pat.elems[i],
               CompileMessage(m, parent, next).value.expr.elems[i],
               next + NestedCountOf(m.fields[..i + 1])))
    {
      FieldAt(m.fields, parent, next, i);
    }
  }

  // ---------------------------------------------------------------------
  // Rejection of repeated fields

  /** Compilation aborts exactly when a repeated field occurs anywhere in
      the tree, and then with the repeated-field message. */
  lemma {:induction false} MessageRejects(m: Message, parent: Expr, next: nat)
    ensures CompileMessage(m, parent, next).Panic? <==> HasRepeated(m)
    ensures CompileMessage(m, parent, next).Panic? ==>
      CompileMessage(m, parent, next).message == RepeatedFieldPanic
  {
    FieldsRejects(m.fields, parent, next);
  }

  lemma {:induction false} FieldsRejects(fs: seq<Field>, parent: Expr, next: nat)
    ensures CompileFields(fs, parent, next).Panic? <==>
      exists i :: 0 <= i < |fs| && FieldHasRepeated(fs[i])
    ensures CompileFields(fs, parent, next).Panic? ==>
      CompileFields(fs, parent, next).message == RepeatedFieldPanic
  {
    if |fs| > 0 {
      var k := |fs| - 1;
      var init := fs[..k];
      FieldsRejects(init, parent, next);
      assert forall i :: 0 <= i < k ==> init[i] == fs[i];
      if CompileFields(init, parent, next).Panic? {
        var i :| 0 <= i < k && FieldHasRepeated(init[i]);
        assert FieldHasRepeated(fs[i]);
      } else {
        var os := CompileFields(init, parent, next).value;
        FieldRejects(fs[k], parent, os.next);
        if CompileField(fs[k], parent, os.next).Panic? {
          assert FieldHasRepeated(fs[k]);
        } else {
          forall i | 0 <= i < |fs|
            ensures !FieldHasRepeated(fs[i])
          {
            if i < k {
              assert init[i] == fs[i];
            }
          }
        }
      }
    }
  }

  /** Once a prefix of the fields aborts, the whole loop aborts with the
      same message: nothing after the first repeated field is compiled. */
  lemma {:induction false} PrefixPanic(fs: seq<Field>, parent: Expr, next: nat, j: nat)
    requires j <= |fs|
    requires CompileFields(fs[..j], parent, next).Panic?
    ensures CompileFields(fs, parent, next) == CompileFields(fs[..j], parent, next)
  {
    if j < |fs| {
      var init := fs[..|fs| - 1];
      assert init[..j] == fs[..j];
      PrefixPanic(init, parent, next, j);
    } else {
      assert fs[..j] == fs;
    }
  }

  lemma {:induction false} FieldRejects(f: Field, parent: Expr, next: nat)
    ensures CompileField(f, parent, next).Panic? <==> FieldHasRepeated(f)
    ensures CompileField(f, parent, next).Panic? ==>
      CompileField(f, parent, next).message == RepeatedFieldPanic
  {
    match f.value
    case SingleValue(_) =>
    case MessageValue(sub) =>
      MessageRejects(sub, EVar(Gensym(GensymBase, next)), next + 1);
    case RepeatedValue =>
  }

  /** Two expressions that mirror the same specification over parents
      that agree up to gensym'd names agree up to gensym'd names. */
  lemma {:induction false} MirrorsErase(m: Message, p1: Expr, p2: Expr, x1: Expr, x2: Expr)
    requires ExprMirrors(m, p1, x1) && ExprMirrors(m, p2, x2)
    requires Erase(p1) == Erase(p2)
    ensures Erase(x1) == Erase(x2)
  {
    forall i | 0 <= i < |m.fields|
      ensures Erase(x1.elems[i]) == Erase(x2.elems[i])
    {
      match m.fields[i].value
      case SingleValue(_) =>
      case MessageValue(sub) =>
        var b1, b2 := x1.elems[i], x2.elems[i];
        assert Erase(EVar(b1.binder)) == Erase(EVar(b2.binder));
        MirrorsErase(sub, EVar(b1.binder), EVar(b2.binder), b1.body, b2.body);
    }
    assert Erase(x1).elems == Erase(x2).elems;
  }

  /** Apart from the gensym'd names, the output does not depend on the
      counter: whether compilation succeeds and the pattern it produces are
      the same for every counter value and every source expression, and the
      expressions agree once the gensym'd names are forgotten whenever the
      source expressions do. */
  lemma CounterIndependence(m: Message, e1: Expr, n1: nat, e2: Expr, n2: nat)
    requires CompileMessage(m, e1, n1).Ok?
    ensures CompileMessage(m, e2, n2).Ok?
    ensures CompileMessage(m, e2, n2).value.pat == CompileMessage(m, e1, n1).value.pat
    ensures Erase(e1) == Erase(e2) ==>
      Erase(CompileMessage(m, e2, n2).value.expr) == Erase(CompileMessage(m, e1, n1).value.expr)
  {
    MessageRejects(m, e1, n1);
    MessageRejects(m, e2, n2);
    MessageShape(m, e1, n1);
    MessageShape(m, e2, n2);
    PatMirrorsUnique(m, CompileMessage(m, e1, n1).value.pat, CompileMessage(m, e2, n2).value.pat);
    if Erase(e1) == Erase(e2) {
      MirrorsErase(m, e1, e2, CompileMessage(m, e1, n1).value.expr, CompileMessage(m, e2, n2).value.expr);
    }
  }

  // ---------------------------------------------------------------------
  // Names

  /** The pattern binds exactly the user identifiers of the specification,
      depth first, in field order. */
  lemma {:induction false} MessagePatNames(m: Message, parent: Expr, next: nat)
    requires CompileMessage(m, parent, next).Ok?
    ensures PatNames(CompileMessage(m, parent, next).value.pat) == BoundIdents(m)
  {
    FieldsPatNames(m.fields, parent, next);
  }

  lemma {:induction false} FieldsPatNames(fs: seq<Field>, parent: Expr, next: nat)
    requires CompileFields(fs, parent, next).Ok?
    ensures PatNamesOf(CompileFields(fs, parent, next).value.pats) == BoundIdentsOf(fs)
  {
    if |fs| > 0 {
      var init := fs[..|fs| - 1];
      FieldsPatNames(init, parent, next);
      var os := CompileFields(init, parent, next).value;
      FieldPatNames(fs[|fs| - 1], parent, os.next);
      var o := CompileField(fs[|fs| - 1], parent, os.next).value;
      var ps := os.pats + [o.pat];
      assert ps[..|ps| - 1] == os.pats;
    }
  }

  lemma {:induction false} FieldPatNames(f: Field, parent: Expr, next: nat)
    requires CompileField(f, parent, next).Ok?
    ensures PatNames(CompileField(f, parent, next).value.pat) == FieldBoundIdents(f)
  {
    match f.value
    case SingleValue(_) =>
    case MessageValue(sub) =>
      MessagePatNames(sub, EVar(Gensym(GensymBase, next)), next + 1);
  }

  /** Every identifier the specification binds is a user identifier. */
  lemma {:induction false} BoundIdentsAreUser(m: Message)
    ensures forall x :: x in BoundIdents(m) ==> x.User?
  {
    BoundIdentsOfAreUser(m.fields);
  }

  lemma {:induction false} BoundIdentsOfAreUser(fs: seq<Field>)
    ensures forall x :: x in BoundIdentsOf(fs) ==> x.User?
  {
    if |fs| > 0 {
      BoundIdentsOfAreUser(fs[..|fs| - 1]);
      match fs[|fs| - 1].value
      case SingleValue(_) =>
      case MessageValue(sub) => BoundIdentsAreUser(sub);
      case RepeatedValue =>
    }
  }

  lemma {:induction false} FreshRangeAppend(a: nat, b: nat, c: nat)
    requires a <= b <= c
    ensures FreshRange(a, b) + FreshRange(b, c) == FreshRange(a, c)
  {
    if b < c {
      FreshRangeAppend(a, b, c - 1);
    }
  }

  lemma FreshRangeCons(a: nat, c: nat)
    requires a < c
    ensures [Gensym(GensymBase, a)] + FreshRange(a + 1, c) == FreshRange(a, c)
  {
    FreshRangeAppend(a, a + 1, c);
  }

  /** `FreshRange(lo, hi)` lists the counter values `lo, lo + 1, ..., hi - 1`. */
  lemma {:induction false} FreshRangeAt(lo: nat, hi: nat)
    requires lo <= hi
    ensures |FreshRange(lo, hi)| == hi - lo
    ensures forall i :: 0 <= i < hi - lo ==> FreshRange(lo, hi)[i] == Gensym(GensymBase, lo + i)
  {
    if lo < hi {
      FreshRangeAt(lo, hi - 1);
    }
  }

  /** The blocks introduce the gensym'd names for the counter values the
      compilation consumed, in depth-first order of the nested messages. */
  lemma {:induction false} MessageBinders(m: Message, parent: Expr, next: nat)
    requires CompileMessage(m, parent, next).Ok?
    ensures Binders(CompileMessage(m, parent, next).value.expr) ==
      FreshRange(next, CompileMessage(m, parent, next).value.next)
  {
    FieldsBinders(m.fields, parent, next);
  }

  lemma {:induction false} FieldsBinders(fs: seq<Field>, parent: Expr, next: nat)
    requires CompileFields(fs, parent, next).Ok?
    ensures BindersOf(CompileFields(fs, parent, next).value.exprs) ==
      FreshRange(next, CompileFields(fs, parent, next).value.next)
  {
    if |fs| > 0 {
      var init := fs[..|fs| - 1];
      FieldsBinders(init, parent, next);
      var os := CompileFields(init, parent, next).value;
      FieldBinders(fs[|fs| - 1], parent, os.next);
      var o := CompileField(fs[|fs| - 1], parent, os.next).value;
      var es := os.exprs + [o.expr];
      assert es[..|es| - 1] == os.exprs;
      FreshRangeAppend(next, os.next, o.next);
    }
  }

  lemma {:induction false} FieldBinders(f: Field, parent: Expr, next: nat)
    requires CompileField(f, parent, next).Ok?
    ensures Binders(CompileField(f, parent, next).value.expr) ==
      FreshRange(next, CompileField(f, parent, next).value.next)
  {
    match f.value
    case SingleValue(_) =>
    case MessageValue(sub) =>
      var t := Gensym(GensymBase, next);
      MessageBinders(sub, EVar(t), next + 1);
      FreshRangeCons(next, CompileField(f, parent, next).value.next);
  }

  /** Every nested message gets its own name: the names the blocks bind are
      pairwise distinct, are the gensym'd names for the counter values
      consumed, one per nested message, and none of them is bound by the
      pattern. */
  lemma FreshNames(m: Message, parent: Expr, next: nat)
    requires CompileMessage(m, parent, next).Ok?
    ensures var o := CompileMessage(m, parent, next).value;
      |Binders(o.expr)| == NestedCount(m) &&
      (forall i :: 0 <= i < |Binders(o.expr)| ==> Binders(o.expr)[i] == Gensym(GensymBase, next + i)) &&
      (forall i, j :: 0 <= i < j < |Binders(o.expr)| ==> Binders(o.expr)[i] != Binders(o.expr)[j]) &&
      (forall x :: x in PatNames(o.pat) ==> x !in Binders(o.expr))
  {
    var o := CompileMessage(m, parent, next).value;
    MessageBinders(m, parent, next);
    MessageCounter(m, parent, next);
    FreshRangeAt(next, o.next);
    MessagePatNames(m, parent, next);
    BoundIdentsAreUser(m);
    forall x | x in PatNames(o.pat)
      ensures x !in Binders(o.expr)
    {
      assert x.User?;
    }
  }

  /** Two compilations run one after the other with the shared counter
      never bind the same intermediate name. */
  lemma SuccessiveCompilationsDisjoint(m1: Message, e1: Expr, m2: Message, e2: Expr, next: nat)
    requires CompileMessage(m1, e1, next).Ok?
    requires CompileMessage(m2, e2, CompileMessage(m1, e1, next).value.next).Ok?
    ensures forall x :: x in Binders(CompileMessage(m1, e1, next).value.expr) ==>
      x !in Binders(CompileMessage(m2, e2, CompileMessage(m1, e1, next).value.next).value.expr)
  {
    var o1 := CompileMessage(m1, e1, next).value;
    var o2 := CompileMessage(m2, e2, o1.next).value;
    MessageBinders(m1, e1, next);
    MessageBinders(m2, e2, o1.next);
    FreshRangeAt(next, o1.next);
    FreshRangeAt(o1.next, o2.next);
    forall x | x in Binders(o1.expr)
      ensures x !in Binders(o2.expr)
    {
      var i :| 0 <= i < |Binders(o1.expr)| && Binders(o1.expr)[i] == x;
      assert x.id < o1.next;
    }
  }

  // ---------------------------------------------------------------------
  // The driver

  /** The macro yields the inert result on a parse error, aborts on a
      repeated field, and otherwise yields exactly one `let pat = value`
      whose two halves are the compiled message. */
  lemma DriverOutcome(parsed: Parsed, next: nat)
    ensures parsed.ParseError? ==> ExpandProtobufBind(parsed, next) == Ok(Expansion(DummyAny, next))
    ensures parsed.Parsed? && HasRepeated(parsed.msg) ==>
      ExpandProtobufBind(parsed, next) == Panic(RepeatedFieldPanic)
    ensures parsed.Parsed? && !HasRepeated(parsed.msg) ==>
      var r := ExpandProtobufBind(parsed, next);
      r.Ok? && r.value.result.Stmts? && |r.value.result.stmts| == 1 &&
      var s := r.value.result.stmts[0];
      PatMirrors(parsed.msg, s.pat) && ExprMirrors(parsed.msg, parsed.expr, s.init) &&
      Corresponds(s.pat, s.init) &&
      r.value.next == next + NestedCount(parsed.msg) &&
      Binders(s.init) == FreshRange(next, r.value.next)
  {
    if parsed.Parsed? {
      var m, e := parsed.msg, parsed.expr;
      MessageRejects(m, e, next);
      if !HasRepeated(m) {
        var o := CompileMessage(m, e, next).value;
        MessageShape(m, e, next);
        MirrorsCorrespond(m, e, o.pat, o.expr);
        MessageCounter(m, e, next);
        MessageBinders(m, e, next);
      }
    }
  }

  /** The two-field example: `a` bound to `x`, and `b` a nested message
      whose field `c` is bound to `y`. */
  lemma Example(source: Expr, next: nat)
    ensures
      var t := Gensym(GensymBase, next);
      CompileMessage(
        Message([Field("a", SingleValue("x")),
                 Field("b", MessageValue(Message([Field("c", SingleValue("y"))])))]),
        source, next) ==
      Ok(Out(PTuple([PIdent(User("x")), PTuple([PIdent(User("y"))])]),
             ETuple([EGet(source, "a"),
                     EBlock(t, EGet(source, "b"), ETuple([EGet(EVar(t), "c")]))]),
             next + 1))
  {
    var t := Gensym(GensymBase, next);
    var inner := [Field("c", SingleValue("y"))];
    var fs := [Field("a", SingleValue("x")), Field("b", MessageValue(Message(inner)))];
    assert inner[..0] == [];
    assert CompileFields(inner[..0], EVar(t), next + 1) == Ok(Outs([], [], next + 1));
    assert CompileField(inner[0], EVar(t), next + 1) == Ok(Out(PIdent(User("y")), EGet(EVar(t), "c"), next + 1));
    assert [] + [PIdent(User("y"))] == [PIdent(User("y"))];
    assert [] + [EGet(EVar(t), "c")] == [EGet(EVar(t), "c")];
    assert CompileFields(inner, EVar(t), next + 1) ==
      Ok(Outs([PIdent(User("y"))], [EGet(EVar(t), "c")], next + 1));
    assert fs[..1] == [fs[0]] && fs[..1][..0] == [];
    assert CompileFields(fs[..1][..0], source, next) == Ok(Outs([], [], next));
    assert [] + [PIdent(User("x"))] == [PIdent(User("x"))];
    assert [] + [EGet(source, "a")] == [EGet(source, "a")];
    assert CompileFields(fs[..1], source, next) ==
      Ok(Outs([PIdent(User("x"))], [EGet(source, "a")], next));
    var innerPat := PTuple([PIdent(User("y"))]);
    var innerExpr := ETuple([EGet(EVar(t), "c")]);
    assert CompileMessage(Message(inner), EVar(t), next + 1) == Ok(Out(innerPat, innerExpr, next + 1));
    assert CompileField(fs[1], source, next) ==
      Ok(Out(innerPat, EBlock(t, EGet(source, "b"), innerExpr), next + 1));
    assert [PIdent(User("x"))] + [innerPat] == [PIdent(User("x")), innerPat];
    assert [EGet(source, "a")] + [EBlock(t, EGet(source, "b"), innerExpr)] ==
      [EGet(source, "a"), EBlock(t, EGet(source, "b"), innerExpr)];
  }
}
