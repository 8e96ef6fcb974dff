/** The binding-tree compiler of `protobuf_bind!`, as functions that thread
    the gensym counter explicitly, together with independent descriptions of
    what a correct output looks like. */
module ProtobufBind {
  import opened Outcome
  import opened Ast
  import opened Parser

  /** The base text every intermediate binding is gensym'd from. */
  const GensymBase: string := "msg"

  /** The message of the abort raised on a repeated field. */
  const RepeatedFieldPanic: string := "protobuf_bind! does not support repeated fields"

  /** One compiled pattern/expression pair and the counter after it. */
  datatype Out = Out(pat: Pat, expr: Expr, next: nat)

  /** The parallel pattern and expression lists of a prefix of fields. */
  datatype Outs = Outs(pats: seq<Pat>, exprs: seq<Expr>, next: nat)

  // ---------------------------------------------------------------------
  // The compiler

  /** `emit_field`: one field, compiled against the expression of the
      message it belongs to.  `next` is the gensym counter. */
  function CompileField(f: Field, parent: Expr, next: nat): (r: Result<Out>)
    ensures r.Ok? ==> next <= r.value.next
    ensures r.Ok? && !f.value.MessageValue? ==> r.value.next == next
    ensures r.Ok? && f.value.MessageValue? ==> next < r.value.next
  {
    match f.value
    case SingleValue(ident) =>
      Ok(Out(PIdent(User(ident)), EGet(parent, f.key), next))
    case MessageValue(msg) =>
      var binder := Gensym(GensymBase, next);
      (match CompileMessage(msg, EVar(binder), next + 1)
       case Ok(o) => Ok(Out(o.pat, EBlock(binder, EGet(parent, f.key), o.expr), o.next))
       case Panic(why) => Panic(why))
    case RepeatedValue =>
      Panic(RepeatedFieldPanic)
  }

  /** `emit_message`: every field compiled against the same `expr`, the
      results collected into a tuple pattern and a tuple expression. */
  function CompileMessage(m: Message, expr: Expr, next: nat): (r: Result<Out>)
    ensures r.Ok? ==> next <= r.value.next
    ensures r.Ok? ==> r.value.pat.PTuple? && |r.value.pat.elems| == |m.fields|
    ensures r.Ok? ==> r.value.expr.ETuple? && |r.value.expr.elems| == |m.fields|
  {
    match CompileFields(m.fields, expr, next)
    case Ok(os) => Ok(Out(PTuple(os.pats), ETuple(os.exprs), os.next))
    case Panic(why) => Panic(why)
  }

  /** The loop of `emit_message` after it has gone through `fs`: the first
      abort ends it, otherwise the last field is compiled with the counter
      left by the ones before it. */
  function CompileFields(fs: seq<Field>, parent: Expr, next: nat): (r: Result<Outs>)
    ensures r.Ok? ==> next <= r.value.next
    ensures r.Ok? ==> |r.value.pats| == |fs| && |r.value.exprs| == |fs|
  {
    if |fs| == 0 then Ok(Outs([], [], next))
    else
      match CompileFields(fs[..|fs| - 1], parent, next)
      case Panic(why) => Panic(why)
      case Ok(os) =>
        (match CompileField(fs[|fs| - 1], parent, os.next)
         case Panic(why) => Panic(why)
         case Ok(o) => Ok(Outs(os.pats + [o.pat], os.exprs + [o.expr], o.next)))
  }

  /** The counter and expansion left by one run of the macro. */
  datatype Expansion = Expansion(result: MacResult, next: nat)

  /** `macro_protobuf_bind`: compile the parsed specification into one
      `let` statement, or hand back the inert result on a parse error. */
  function ExpandProtobufBind(parsed: Parsed, next: nat): (r: Result<Expansion>)
    ensures parsed.ParseError? ==> r == Ok(Expansion(DummyAny, next))
    ensures r.Ok? && r.value.result.Stmts? ==> |r.value.result.stmts| == 1
  {
    match parsed
    case ParseError => Ok(Expansion(DummyAny, next))
    case Parsed(expr, msg) =>
      match CompileMessage(msg, expr, next)
      case Ok(o) => Ok(Expansion(Stmts([SLet(o.pat, o.expr)]), o.next))
      case Panic(why) => Panic(why)
  }

  // ---------------------------------------------------------------------
  // Reference descriptions of the input

  /** A repeated field occurs somewhere in the message tree. */
  predicate HasRepeated(m: Message) {
    exists i :: 0 <= i < |m.fields| && FieldHasRepeated(m.fields[i])
  }

  predicate FieldHasRepeated(f: Field) {
    match f.value
    case SingleValue(_) => false
    case MessageValue(sub) => HasRepeated(sub)
    case RepeatedValue => true
  }

  /** Number of nested-message fields at every depth. */
  function NestedCount(m: Message): (n: nat) {
    NestedCountOf(m.fields)
  }

  function NestedCountOf(fs: seq<Field>): (n: nat) {
    if |fs| == 0 then 0 else NestedCountOf(fs[..|fs| - 1]) + FieldNestedCount(fs[|fs| - 1])
  }

  function FieldNestedCount(f: Field): (n: nat) {
    match f.value
    case MessageValue(sub) => 1 + NestedCount(sub)
    case _ => 0
  }

  /** The user identifiers of the single-value fields, depth first, in field order. */
  function BoundIdents(m: Message): (names: seq<Name>) {
    BoundIdentsOf(m.fields)
  }

  function BoundIdentsOf(fs: seq<Field>): (names: seq<Name>) {
    if |fs| == 0 then [] else BoundIdentsOf(fs[..|fs| - 1]) + FieldBoundIdents(fs[|fs| - 1])
  }

  function FieldBoundIdents(f: Field): (names: seq<Name>) {
    match f.value
    case SingleValue(ident) => [User(ident)]
    case MessageValue(sub) => BoundIdents(sub)
    case RepeatedValue => []
  }

  // ---------------------------------------------------------------------
  // Reference descriptions of a correct output

  /** `p` has one slot per field of `m`; a single-value slot binds exactly
      the user identifier, a nested-message slot is the nested message's own
      tuple pattern, with no extra wrapping. */
  predicate PatMirrors(m: Message, p: Pat) {
    p.PTuple? && |p.elems| == |m.fields| &&
    forall i :: 0 <= i < |m.fields| ==> SlotPat(m.fields[i], p.elems[i])
  }

  predicate SlotPat(f: Field, p: Pat) {
    match f.value
    case SingleValue(ident) => p == PIdent(User(ident))
    case MessageValue(sub) => PatMirrors(sub, p)
    case RepeatedValue => false
  }

  /** `e` has one slot per field of `m`, each reading its field from the same
      `parent`; a nested-message slot is a block that binds one gensym'd
      name to the field and then evaluates the nested tuple with that name
      as its parent. */
  predicate ExprMirrors(m: Message, parent: Expr, e: Expr) {
    e.ETuple? && |e.elems| == |m.fields| &&
    forall i :: 0 <= i < |m.fields| ==> SlotExpr(m.fields[i], parent, e.elems[i])
  }

  predicate SlotExpr(f: Field, parent: Expr, e: Expr) {
    match f.value
    case SingleValue(_) => e == EGet(parent, f.key)
    case MessageValue(sub) =>
      e.EBlock? && e.binder.Gensym? && e.init == EGet(parent, f.key) &&
      ExprMirrors(sub, EVar(e.binder), e.body)
    case RepeatedValue => false
  }

  /** The pattern and the expression mirror each other: every tuple pattern
      meets a tuple expression of the same arity (possibly under blocks),
      and every identifier pattern meets a field read. */
  predicate Corresponds(p: Pat, e: Expr) {
    match p
    case PIdent(_) => e.EGet?
    case PTuple(ps) =>
      match e
      case ETuple(es) => |ps| == |es| && forall i :: 0 <= i < |ps| ==> Corresponds(ps[i], es[i])
      case EBlock(_, _, body) => Corresponds(p, body)
      case _ => false
  }

  /** The identifiers a pattern binds, left to right. */
  function PatNames(p: Pat): (names: seq<Name>) {
    match p
    case PIdent(n) => [n]
    case PTuple(ps) => PatNamesOf(ps)
  }

  function PatNamesOf(ps: seq<Pat>): (names: seq<Name>) {
    if |ps| == 0 then [] else PatNamesOf(ps[..|ps| - 1]) + PatNames(ps[|ps| - 1])
  }

  /** The names bound by the `let`s of the generated blocks, in order.  The
      initialiser and the field reads are not entered: they are the user's
      expression, whose own bindings are scoped inside it. */
  function Binders(e: Expr): (names: seq<Name>) {
    match e
    case EBlock(t, _, body) => [t] + Binders(body)
    case ETuple(es) => BindersOf(es)
    case _ => []
  }

  function BindersOf(es: seq<Expr>): (names: seq<Name>) {
    if |es| == 0 then [] else BindersOf(es[..|es| - 1]) + Binders(es[|es| - 1])
  }

  /** The gensym'd names for the counter values `lo` up to, not including, `hi`. */
  function FreshRange(lo: nat, hi: nat): (names: seq<Name>) {
    if hi <= lo then [] else FreshRange(lo, hi - 1) + [Gensym(GensymBase, hi - 1)]
  }

  /** A name with the counter value forgotten: every gensym'd name is the same. */
  function EraseName(n: Name): (r: Name) {
    if n.Gensym? then Gensym(GensymBase, 0) else n
  }

  /** An expression with every gensym'd name forgotten, so that two outputs
      that differ only in the names the counter chose become equal. */
  function Erase(e: Expr): (r: Expr) {
    match e
    case EVar(n) => EVar(EraseName(n))
    case EGet(obj, key) => EGet(Erase(obj), key)
    case ETuple(es) => ETuple(seq(|es|, i requires 0 <= i < |es| => Erase(es[i])))
    case EBlock(t, init, body) => EBlock(EraseName(t), Erase(init), Erase(body))
  }
}
