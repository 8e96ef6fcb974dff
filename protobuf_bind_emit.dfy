/** The compiler as the source runs it: `emit_message` loops over the
    fields pushing onto two growing lists, and every nested message draws a
    new symbol from the host's gensym counter. */
module ProtobufBindEmit {
  import opened Outcome
  import opened Ast
  import opened Parser
  import opened ProtobufBind
  import ProtobufBindProofs

  /** The host's symbol table, reduced to the counter that `gensym` advances. */
  class Interner {
    var next: nat

    constructor (start: nat)
      ensures next == start
    {
      next := start;
    }

    /** A symbol never handed out before: the current counter value, after
        which the counter moves on. */
    method Gensym(base: string) returns (name: Name)
      modifies this
      ensures name == Name.Gensym(base, old(next))
      ensures next == old(next) + 1
    {
      name := Name.Gensym(base, next);
      next := next + 1;
    }
  }

  /** A pattern/expression pair as `emit_field` and `emit_message` return it. */
  datatype Emitted = Emitted(pat: Pat, expr: Expr)

  /** `r` paired with the counter it left behind, to compare with the
      counter-threading compiler. */
  function WithCounter(r: Result<Emitted>, next: nat): (out: Result<Out>) {
    match r
    case Ok(e) => Ok(Out(e.pat, e.expr, next))
    case Panic(why) => Panic(why)
  }

  /** `emit_field`. */
  method EmitField(cx: Interner, f: Field, parent: Expr) returns (r: Result<Emitted>)
    modifies cx
    decreases f
    ensures CompileField(f, parent, old(cx.next)) == WithCounter(r, cx.next)
  {
    match f.value {
      case SingleValue(ident) =>
        r := Ok(Emitted(PIdent(User(ident)), EGet(parent, f.key)));
      case MessageValue(msg) =>
        var iMsg := cx.Gensym(GensymBase);
        var eMsg := EVar(iMsg);
        var e := EGet(parent, f.key);
        var nested := EmitMessage(cx, msg, eMsg);
        match nested {
          case Ok(em) =>
            r := Ok(Emitted(em.pat, EBlock(iMsg, e, em.expr)));
          case Panic(why) =>
            r := Panic(why);
        }
      case RepeatedValue =>
        r := Panic(RepeatedFieldPanic);
    }
  }

  /** `emit_message`: the loop over the fields, each compiled against the
      same `expr`; the first abort ends the compilation. */
  method EmitMessage(cx: Interner, msg: Message, expr: Expr) returns (r: Result<Emitted>)
    modifies cx
    decreases msg
    ensures CompileMessage(msg, expr, old(cx.next)) == WithCounter(r, cx.next)
  {
    var pats: seq<Pat> := [];
    var values: seq<Expr> := [];
    var fields := msg.fields;
    ghost var start := cx.next;
    var i := 0;
    while i < |fields|
      invariant 0 <= i <= |fields|
      invariant CompileFields(fields[..i], expr, start) == Ok(Outs(pats, values, cx.next))
    {
      var fr := EmitField(cx, fields[i], expr);
      assert fields[..i + 1][..i] == fields[..i];
      if fr.Panic? {
        ProtobufBindProofs.PrefixPanic(fields, expr, start, i + 1);
        r := Panic(fr.message);
        return;
      }
      pats := pats + [fr.value.pat];
      values := values + [fr.value.expr];
      i := i + 1;
    }
    assert fields[..i] == fields;
    r := Ok(Emitted(PTuple(pats), ETuple(values)));
  }

  /** `macro_protobuf_bind`, given what the parser returned. */
  method MacroProtobufBind(cx: Interner, parsed: Parsed) returns (r: Result<MacResult>)
    modifies cx
    ensures ExpandProtobufBind(parsed, old(cx.next)) ==
      (if r.Ok? then Ok(Expansion(r.value, cx.next)) else Panic(r.message))
  {
    match parsed {
      case Parsed(expr, msg) =>
        var emitted := EmitMessage(cx, msg, expr);
        match emitted {
          case Ok(em) =>
            r := Ok(Stmts([SLet(em.pat, em.expr)]));
          case Panic(why) =>
            r := Panic(why);
        }
      case ParseError =>
        r := Ok(DummyAny);
    }
  }
}
