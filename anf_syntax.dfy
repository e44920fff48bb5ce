/**
 * The ANF representation (src/scalpel/SSA/anf_syntax.py) and the lowering of
 * an SSA program into it: blocks become `letrec` entries of λ-functions over
 * their phi variables, statements become `let` chains, jumps become
 * applications passing the jump arguments, and standalone calls are bound to
 * buffer variables `zBuf<n>` numbered by one counter for the whole run.
 */
module AnfSyntax {
  import opened Common
  import S = SsaSyntax

  // ---------------------------------------------------------------------------
  // Nodes

  /** `ANF_V_CONST`, `ANF_V_VAR`, `ANF_V_FUNC` (λ parameters and body),
      `ANF_E_APP` (arguments, then the applied name), `ANF_E_LET`,
      `ANF_E_LETREC` (its bound names and terms side by side) and `ANF_E_IF`.
      The lowering puts applications where values go, so one type holds all. */
  datatype Anf =
    | AConst(text: string)
    | AVar(name: string)
    | AFunc(params: seq<Anf>, body: Anf)
    | App(args: seq<Anf>, fn: Anf)
    | Let(bound: Anf, value: Anf, body: Anf)
    | LetRec(names: seq<Anf>, defs: seq<Anf>, body: Anf)
    | If(test: Anf, thenBranch: Anf, elseBranch: Anf)

  /** What the lowering yields for a node it has no case for. */
  const NotImpl := AConst("Not impl")

  // ---------------------------------------------------------------------------
  // Printing

  /** `get_indentation`: the bar-and-two-spaces unit once per level. */
  function AnfIndent(n: nat): (r: string)
    ensures |r| == 3 * n
    ensures forall i :: 0 <= i < |r| ==> r[i] == "|  "[i % 3]
  {
    if n == 0 then ""
    else
      var prev := AnfIndent(n - 1);
      assert forall i :: 3 * (n - 1) <= i < 3 * n ==> i % 3 == i - 3 * (n - 1);
      prev + "|  "
  }

  /** The `print` methods of the ANF nodes. */
  function Print(a: Anf, lvl: nat): string
  {
    match a
    case AConst(text) => text
    case AVar(name) => name
    case AFunc(params, body) =>
      "\U{03BB}" + Join(seq(|params|, i requires 0 <= i < |params| => Print(params[i], 0)), " ")
      + " . \n" + Print(body, lvl)
    case App(args, fn) =>
      AnfIndent(lvl) + Join(seq(|args|, i requires 0 <= i < |args| => Print(args[i], lvl)), " ")
      + "." + Print(fn, lvl)
    case Let(bound, value, body) =>
      AnfIndent(lvl) + "let " + Print(bound, lvl + 1) + " = " + Print(value, 0) + " in \n"
      + Print(body, lvl + 1)
    case LetRec(names, defs, body) =>
      var entries := seq(Min(|names|, |defs|), i requires 0 <= i < Min(|names|, |defs|) =>
                       Print(names[i], lvl + 2) + " = " + Print(defs[i], lvl + 2));
      "\n" + AnfIndent(lvl) + "letrec " + "\n" + AnfIndent(lvl + 1)
      + Join(entries, "\n" + AnfIndent(lvl + 1))
      + "\n" + AnfIndent(lvl) + "in \n" + Print(body, lvl + 1)
    case If(test, thenBranch, elseBranch) =>
      AnfIndent(lvl) + "if " + Print(test, 0) + " then \n" + Print(thenBranch, lvl + 1) + " \n"
      + AnfIndent(lvl) + "else\n" + Print(elseBranch, lvl + 1)
  }

  function Min(a: int, b: int): int
  {
    if a <= b then a else b
  }

  // ---------------------------------------------------------------------------
  // Values: SA_V

  /** `SA_V`. */
  function SaV(v: S.Value): Anf
  {
    match v
    case Var(name) => AVar(name)
    case Const(text) => AConst(text)
    case Label(l) => AConst(l)
    case FuncCall(callee, args) => App(seq(|args|, i requires 0 <= i < |args| => SaV(args[i])), SaV(callee))
  }

  function SaVs(vs: seq<S.Value>): (r: seq<Anf>)
    ensures |r| == |vs| && forall i :: 0 <= i < |vs| ==> r[i] == SaV(vs[i])
  {
    seq(|vs|, i requires 0 <= i < |vs| => SaV(vs[i]))
  }

  /** Reads an ANF value back as an SSA value: variables, constants and
      applications; anything else has no SSA reading. */
  function ToSsa(a: Anf): Option<S.Value>
  {
    match a
    case AVar(name) => Some(S.Var(name))
    case AConst(text) => Some(S.Const(text))
    case App(args, fn) =>
      if ToSsa(fn).Some? && forall i :: 0 <= i < |args| ==> ToSsa(args[i]).Some? then
        Some(S.FuncCall(ToSsa(fn).value, seq(|args|, i requires 0 <= i < |args| => ToSsa(args[i]).value)))
      else None
    case _ => None
  }

  /** `v` with every label used as a value turned into a constant of its text. */
  function LabelsAsConsts(v: S.Value): S.Value
  {
    match v
    case Label(l) => S.Const(l)
    case FuncCall(callee, args) =>
      S.FuncCall(LabelsAsConsts(callee), seq(|args|, i requires 0 <= i < |args| => LabelsAsConsts(args[i])))
    case _ => v
  }

  predicate LabelFree(v: S.Value)
  {
    match v
    case Label(_) => false
    case FuncCall(callee, args) => LabelFree(callee) && forall i :: 0 <= i < |args| ==> LabelFree(args[i])
    case _ => true
  }

  /** `SA_V` loses nothing but the difference between a label and a constant:
      reading its result back gives the value with labels made constants. */
  lemma {:induction false} SaVRoundTrip(v: S.Value)
    ensures ToSsa(SaV(v)) == Some(LabelsAsConsts(v))
  {
    match v
    case FuncCall(callee, args) =>
      SaVRoundTrip(callee);
      var mapped := seq(|args|, i requires 0 <= i < |args| => SaV(args[i]));
      forall i | 0 <= i < |args|
        ensures ToSsa(mapped[i]) == Some(LabelsAsConsts(args[i]))
      {
        SaVRoundTrip(args[i]);
      }
      assert SaV(v) == App(mapped, SaV(callee));
      assert seq(|mapped|, i requires 0 <= i < |mapped| => ToSsa(mapped[i]).value)
          == seq(|args|, i requires 0 <= i < |args| => LabelsAsConsts(args[i]));
    case _ =>
  }

  lemma {:induction false} LabelFreeUnchanged(v: S.Value)
    requires LabelFree(v)
    ensures LabelsAsConsts(v) == v
  {
    match v
    case FuncCall(callee, args) =>
      LabelFreeUnchanged(callee);
      forall i | 0 <= i < |args| ensures LabelsAsConsts(args[i]) == args[i] {
        LabelFreeUnchanged(args[i]);
      }
      assert seq(|args|, i requires 0 <= i < |args| => LabelsAsConsts(args[i])) == args;
    case _ =>
  }

  /** Two label-free values `SA_V` maps alike are equal. */
  lemma SaVInjective(v: S.Value, w: S.Value)
    requires LabelFree(v) && LabelFree(w) && SaV(v) == SaV(w)
    ensures v == w
  {
    SaVRoundTrip(v);
    SaVRoundTrip(w);
    LabelFreeUnchanged(v);
    LabelFreeUnchanged(w);
  }

  /** A variable, constant or label prints in ANF as it does in SSA. */
  lemma SaVPrintsAtoms(v: S.Value, lvl: nat)
    requires !v.FuncCall?
    ensures Print(SaV(v), lvl) == S.PrintValue(v)
  {
  }

  // ---------------------------------------------------------------------------
  // Statements: SA_ES

  /** The lowering as the source writes it, and as corrected; see `SaEs`. */
  datatype Variant = AsWritten | Corrected

  /** A lowered term list and the buffer counter after it. */
  datatype Lowered = Lowered(anf: Anf, counter: nat)

  /** What `get_block_by_id` is handed: a label's text, or the label object
      itself, which never equals a block's label text. */
  datatype LookupKey = LabelText(text: string) | LabelObject(labelOf: string)

  /** `get_block_by_id` over a block sequence, comparing each block's label
      text with the key. */
  function FindBlock(bs: seq<S.Block>, key: LookupKey): Option<S.Block>
  {
    if bs == [] then None
    else if key == LabelText(bs[0].labelText) then Some(bs[0])
    else FindBlock(bs[1..], key)
  }

  lemma {:induction false} FindBlockByText(bs: seq<S.Block>, l: string)
    ensures FindBlock(bs, LabelText(l)) == S.FirstLabelled(bs, l)
  {
    if bs != [] {
      FindBlockByText(bs[1..], l);
    }
  }

  /** Handed a label object, the lookup finds no block, whatever the blocks. */
  lemma {:induction false} FindBlockByObject(bs: seq<S.Block>, l: string)
    ensures FindBlock(bs, LabelObject(l)) == None
  {
    if bs != [] {
      FindBlockByObject(bs[1..], l);
    }
  }

  /** The name bound to the `n`-th standalone call. */
  function BufferName(n: nat): string
  {
    "zBuf" + NatToString(n)
  }

  function TermSize(t: S.Term): nat
  {
    match t
    case IfElse(_, a, b) => 1 + TermSize(a) + TermSize(b)
    case _ => 1
  }

  function TermsSize(ts: seq<Option<S.Term>>): nat
  {
    if ts == [] then 0
    else (if ts[0].Some? then TermSize(ts[0].value) else 1) + TermsSize(ts[1..])
  }

  /**
   * `SA_ES` on the statements `terms` of block `b` of program `ast`, with the
   * buffer counter at `c`. An empty list is an index error; a jump whose
   * block is not found fails when the missing block's label is read.
   *
   * As written, a standalone call reads the counter, lowers the rest of the
   * list, and only then increments it, so the calls after it see the same
   * counter; and a jump hands the label object, not its text, to the block
   * lookup. Corrected, the rest is lowered with the counter already
   * incremented and the lookup is by label text.
   */
  function SaEs(v: Variant, ast: S.Ast, b: S.Block, terms: seq<Option<S.Term>>, c: nat): Result<Lowered, string>
    decreases TermsSize(terms)
  {
    if terms == [] then Err("IndexError")
    else match terms[0]
      case None => Ok(Lowered(AConst(""), c))
      case Some(t) =>
        match t
        case Assign(target, value) =>
          (match SaEs(v, ast, b, terms[1..], c)
           case Err(e) => Err(e)
           case Ok(rest) => Ok(Lowered(Let(SaV(target), SaV(value), rest.anf), rest.counter)))
        case Goto(l) =>
          var key := if v == AsWritten then LabelObject(l) else LabelText(l);
          (match FindBlock(S.SearchOrder(ast), key)
           case None => Err("AttributeError")
           case Some(to) => Ok(Lowered(App(SaVs(S.JumpArgs(b, to)), SaV(S.Label(l))), c)))
        case Phi(_, _) => SaEs(v, ast, b, terms[1..], c)
        case Ret(call) => Ok(Lowered(if call.Some? then SaV(call.value) else NotImpl, c))
        case IfElse(test, thenTerm, elseTerm) =>
          SingletonSize(thenTerm);
          SingletonSize(elseTerm);
          (match SaEs(v, ast, b, [Some(thenTerm)], c)
           case Err(e) => Err(e)
           case Ok(th) =>
             match SaEs(v, ast, b, [Some(elseTerm)], th.counter)
             case Err(e) => Err(e)
             case Ok(el) => Ok(Lowered(If(SaV(test), th.anf, el.anf), el.counter)))
        case Expr(value) =>
          if value.FuncCall? then
            var restCounter := if v == AsWritten then c else c + 1;
            match SaEs(v, ast, b, terms[1..], restCounter)
            case Err(e) => Err(e)
            case Ok(rest) =>
              Ok(Lowered(Let(AVar(BufferName(c)), SaV(value), rest.anf),
                         if v == AsWritten then rest.counter + 1 else rest.counter))
          else Ok(Lowered(App([], NotImpl), c))
  }

  lemma SingletonSize(t: S.Term)
    ensures TermsSize([Some(t)]) == TermSize(t)
  {
    assert [Some(t)][1..] == [];
  }

  /** Phi assignments lower to nothing: a list of them in front of `rest`
      lowers as `rest` does. */
  lemma {:induction false} PhisVanish(v: Variant, ast: S.Ast, b: S.Block, phis: seq<Option<S.Term>>,
                                      rest: seq<Option<S.Term>>, c: nat)
    requires forall i :: 0 <= i < |phis| ==> phis[i].Some? && phis[i].value.Phi?
    ensures SaEs(v, ast, b, phis + rest, c) == SaEs(v, ast, b, rest, c)
  {
    if phis != [] {
      assert (phis + rest)[0] == phis[0];
      assert (phis + rest)[1..] == phis[1..] + rest;
      PhisVanish(v, ast, b, phis[1..], rest, c);
    } else {
      assert phis + rest == rest;
    }
  }

  /** The targets of the plain assignments of a term list, in order. */
  function AssignTargets(terms: seq<Option<S.Term>>): seq<S.Value>
  {
    if terms == [] then []
    else (match terms[0] case Some(Assign(t, _)) => [t] case _ => []) + AssignTargets(terms[1..])
  }

  /** The names bound along the top-level `let` chain of a term. */
  function LetBound(a: Anf): seq<Anf>
  {
    match a
    case Let(bound, _, body) => [bound] + LetBound(body)
    case _ => []
  }

  /**
   * A run of assignments and phis in front of `rest` becomes a `let` chain
   * binding the assignment targets, in order, around the lowering of `rest`;
   * the buffer counter is that of `rest`.
   */
  lemma {:induction false} AssignmentsBecomeLets(v: Variant, ast: S.Ast, b: S.Block,
                                                 prefix: seq<Option<S.Term>>, rest: seq<Option<S.Term>>, c: nat)
    requires forall i :: 0 <= i < |prefix| ==> prefix[i].Some? && (prefix[i].value.Assign? || prefix[i].value.Phi?)
    requires SaEs(v, ast, b, rest, c).Ok?
    ensures SaEs(v, ast, b, prefix + rest, c).Ok?
    ensures LetBound(SaEs(v, ast, b, prefix + rest, c).value.anf)
            == SaVs(AssignTargets(prefix)) + LetBound(SaEs(v, ast, b, rest, c).value.anf)
    ensures SaEs(v, ast, b, prefix + rest, c).value.counter == SaEs(v, ast, b, rest, c).value.counter
  {
    if prefix != [] {
      assert (prefix + rest)[0] == prefix[0];
      assert (prefix + rest)[1..] == prefix[1..] + rest;
      AssignmentsBecomeLets(v, ast, b, prefix[1..], rest, c);
      var tail := SaVs(AssignTargets(prefix[1..]));
      match prefix[0].value
      case Assign(t, _) =>
        assert AssignTargets(prefix) == [t] + AssignTargets(prefix[1..]);
        assert SaVs([t] + AssignTargets(prefix[1..])) == [SaV(t)] + tail;
      case Phi(_, _) =>
        assert AssignTargets(prefix) == AssignTargets(prefix[1..]);
    } else {
      assert prefix + rest == rest;
    }
  }

  /** With the lookup corrected, a jump lowers to an application of the
      target's label to the jump arguments, or fails if no block has the label. */
  lemma GotoLowersToJump(ast: S.Ast, b: S.Block, l: string, rest: seq<Option<S.Term>>, c: nat)
    ensures var r := SaEs(Corrected, ast, b, [Some(S.Goto(l))] + rest, c);
            match S.FirstLabelled(S.SearchOrder(ast), l)
            case None => r == Err("AttributeError")
            case Some(to) => r == Ok(Lowered(App(SaVs(S.JumpArgs(b, to)), AConst(l)), c))
  {
    FindBlockByText(S.SearchOrder(ast), l);
  }

  /** As written, every jump fails: the lookup never finds the block. */
  lemma AsWrittenGotoFails(ast: S.Ast, b: S.Block, l: string, rest: seq<Option<S.Term>>, c: nat)
    ensures SaEs(AsWritten, ast, b, [Some(S.Goto(l))] + rest, c) == Err("AttributeError")
  {
    FindBlockByObject(S.SearchOrder(ast), l);
  }

  // ---------------------------------------------------------------------------
  // Buffer variables

  predicate IsBufferName(n: string)
  {
    |n| > 4 && n[..4] == "zBuf" && AllDigits(n[4..])
  }

  function BufferIndex(n: string): nat
    requires IsBufferName(n)
  {
    DigitsValue(n[4..])
  }

  lemma BufferNameDecodes(n: nat)
    ensures IsBufferName(BufferName(n)) && BufferIndex(BufferName(n)) == n
  {
    assert BufferName(n)[4..] == NatToString(n);
    DigitsValueOfNatToString(n);
  }

  /** A versioned SSA name (`name_<version>`) is never a buffer name. */
  lemma VersionedNotBuffer(name: string, version: int)
    ensures !IsBufferName(S.Versioned(name, version))
  {
    var s := S.Versioned(name, version);
    assert s[|name|] == '_';
    if |name| >= 4 && |s| > 4 {
      assert s[4..][|name| - 4] == '_';
      assert !IsDigit(s[4..][|name| - 4]);
    } else if |s| > 4 {
      assert s[..4][|name|] == '_';
    }
  }

  /** The buffer indices bound by `let`s in a term, in order. */
  function Buffers(a: Anf): seq<nat>
    decreases a, 1
  {
    match a
    case Let(bound, _, body) =>
      (if bound.AVar? && IsBufferName(bound.name) then [BufferIndex(bound.name)] else []) + Buffers(body)
    case If(_, t, e) => Buffers(t) + Buffers(e)
    case AFunc(_, body) => Buffers(body)
    case LetRec(_, defs, body) => BuffersOf(defs) + Buffers(body)
    case _ => []
  }

  function BuffersOf(nodes: seq<Anf>): seq<nat>
    decreases nodes, 0
  {
    if nodes == [] then [] else BuffersOf(nodes[..|nodes| - 1]) + Buffers(nodes[|nodes| - 1])
  }

  /** The numbers from `a` up to, not including, `b`. */
  function Range(a: nat, b: nat): (r: seq<nat>)
    requires a <= b
    ensures |r| == b - a && forall i :: 0 <= i < |r| ==> r[i] == a + i
  {
    seq(b - a, i requires 0 <= i < b - a => a + i)
  }

  lemma RangeAppend(a: nat, b: nat, c: nat)
    requires a <= b <= c
    ensures Range(a, b) + Range(b, c) == Range(a, c)
  {
  }

  lemma RangeDistinct(a: nat, b: nat)
    requires a <= b
    ensures NoDuplicates(Range(a, b))
  {
  }

  /** No assignment, also inside a branch, targets a buffer name. */
  predicate TermNoBuffer(t: S.Term)
  {
    match t
    case Assign(target, _) => !(target.Var? && IsBufferName(target.name))
    case IfElse(_, a, b) => TermNoBuffer(a) && TermNoBuffer(b)
    case _ => true
  }

  predicate NoBufferTargets(terms: seq<Option<S.Term>>)
  {
    forall i :: 0 <= i < |terms| && terms[i].Some? ==> TermNoBuffer(terms[i].value)
  }

  lemma SaVNoBuffers(v: S.Value)
    ensures Buffers(SaV(v)) == []
  {
  }

  /**
   * Corrected, the standalone calls of a term list are bound to the buffers
   * numbered from the counter on, one each, in order: the counter rises by
   * exactly the number of buffers minted.
   */
  lemma {:induction false} BuffersNumbered(ast: S.Ast, b: S.Block, terms: seq<Option<S.Term>>, c: nat)
    requires NoBufferTargets(terms)
    requires SaEs(Corrected, ast, b, terms, c).Ok?
    ensures var r := SaEs(Corrected, ast, b, terms, c).value;
            c <= r.counter && Buffers(r.anf) == Range(c, r.counter)
    decreases TermsSize(terms)
  {
    var r := SaEs(Corrected, ast, b, terms, c).value;
    assert NoBufferTargets(terms[1..]) by {
      forall i | 0 <= i < |terms[1..]| && terms[1..][i].Some? ensures TermNoBuffer(terms[1..][i].value) {
        assert terms[1..][i] == terms[i + 1];
      }
    }
    match terms[0]
    case None =>
    case Some(t) =>
      assert TermNoBuffer(t) by { assert terms[0].Some?; }
      match t
      case Assign(target, value) =>
        BuffersNumbered(ast, b, terms[1..], c);
      case Goto(_) =>
      case Phi(_, _) =>
        BuffersNumbered(ast, b, terms[1..], c);
      case Ret(call) =>
        if call.Some? {
          SaVNoBuffers(call.value);
        }
      case IfElse(test, thenTerm, elseTerm) =>
        SingletonSize(thenTerm);
        SingletonSize(elseTerm);
        var th := SaEs(Corrected, ast, b, [Some(thenTerm)], c).value;
        BuffersNumbered(ast, b, [Some(thenTerm)], c);
        BuffersNumbered(ast, b, [Some(elseTerm)], th.counter);
        var el := SaEs(Corrected, ast, b, [Some(elseTerm)], th.counter).value;
        RangeAppend(c, th.counter, el.counter);
      case Expr(value) =>
        if value.FuncCall? {
          BuffersNumbered(ast, b, terms[1..], c + 1);
          BufferNameDecodes(c);
          assert [c] + Range(c + 1, r.counter) == Range(c, r.counter);
        }
  }

  /** Finding: as written, two standalone calls in a row share a buffer name. */
  lemma AsWrittenBuffersCollide()
    ensures var call := Some(S.Expr(S.FuncCall(S.Var("f"), [])));
            var terms := [call, call, Some(S.Ret(None))];
            var blk := S.Block("1", terms, true);
            var r := SaEs(AsWritten, S.Ast([], [blk]), blk, terms, 0);
            r.Ok? && r.value.counter == 2 && Buffers(r.value.anf) == [0, 0]
  {
    var call := Some(S.Expr(S.FuncCall(S.Var("f"), [])));
    var terms := [call, call, Some(S.Ret(None))];
    var blk := S.Block("1", terms, true);
    BufferNameDecodes(0);
    assert terms[1..][1..] == [Some(S.Ret(None))];
    var ast := S.Ast([], [blk]);
    assert SaEs(AsWritten, ast, blk, terms[1..][1..], 0) == Ok(Lowered(NotImpl, 0));
    var inner := Let(AVar(BufferName(0)), SaV(call.value.value), NotImpl);
    assert SaEs(AsWritten, ast, blk, terms[1..], 0) == Ok(Lowered(inner, 1));
    assert Buffers(inner) == [0];
    var outer := Let(AVar(BufferName(0)), SaV(call.value.value), inner);
    assert SaEs(AsWritten, ast, blk, terms, 0) == Ok(Lowered(outer, 2));
    assert Buffers(outer) == [0, 0];
  }

  /** The same list, corrected, binds two different buffers. */
  lemma CorrectedBuffersDiffer()
    ensures var call := Some(S.Expr(S.FuncCall(S.Var("f"), [])));
            var terms := [call, call, Some(S.Ret(None))];
            var blk := S.Block("1", terms, true);
            var r := SaEs(Corrected, S.Ast([], [blk]), blk, terms, 0);
            r.Ok? && r.value.counter == 2 && Buffers(r.value.anf) == [0, 1]
  {
    var call := Some(S.Expr(S.FuncCall(S.Var("f"), [])));
    var terms := [call, call, Some(S.Ret(None))];
    var blk := S.Block("1", terms, true);
    BufferNameDecodes(0);
    BufferNameDecodes(1);
    assert terms[1..][1..] == [Some(S.Ret(None))];
    var ast := S.Ast([], [blk]);
    assert SaEs(Corrected, ast, blk, terms[1..][1..], 2) == Ok(Lowered(NotImpl, 2));
    var inner := Let(AVar(BufferName(1)), SaV(call.value.value), NotImpl);
    assert SaEs(Corrected, ast, blk, terms[1..], 1) == Ok(Lowered(inner, 2));
    assert Buffers(inner) == [1];
    var outer := Let(AVar(BufferName(0)), SaV(call.value.value), inner);
    assert SaEs(Corrected, ast, blk, terms, 0) == Ok(Lowered(outer, 2));
    assert Buffers(outer) == [0, 1];
  }

  // ---------------------------------------------------------------------------
  // Blocks and procedures: SA_BS and SA_PS

  /** `ANF_E_LETREC` while `SA_BS` and `SA_PS` fill it. */
  class LetRecBuilder {
    var names: seq<Anf>
    var defs: seq<Anf>
    var body: Anf

    ghost predicate Valid()
      reads this
    {
      |names| == |defs|
    }

    constructor (name: Anf, def: Anf, body: Anf)
      ensures Valid()
      ensures names == [name] && defs == [def] && this.body == body
    {
      names := [name];
      defs := [def];
      this.body := body;
    }

    /** `add_entry`: one more name and its term, side by side. */
    method AddEntry(name: Anf, def: Anf)
      requires Valid()
      modifies this
      ensures Valid()
      ensures names == old(names) + [name] && defs == old(defs) + [def] && body == old(body)
    {
      names := names + [name];
      defs := defs + [def];
    }
  }

  /** The label constants of `bs`, in order. */
  function LabelConsts(bs: seq<S.Block>): (r: seq<Anf>)
    ensures |r| == |bs| && forall i :: 0 <= i < |bs| ==> r[i] == AConst(bs[i].labelText)
  {
    seq(|bs|, i requires 0 <= i < |bs| => AConst(bs[i].labelText))
  }

  /** The λ-entry of block `b` around its lowered statements. */
  function BlockEntry(b: S.Block, lowered: Anf): Anf
  {
    AFunc(SaVs(S.PhiTargets(b.terms)), lowered)
  }

  /** The entries of `bs`, each block lowered with the counter the blocks
      before it left, and the counter after them all. */
  function LoweredBlocks(ast: S.Ast, bs: seq<S.Block>, c: nat): Result<(seq<Anf>, nat), string>
  {
    if bs == [] then Ok(([], c))
    else
      match LoweredBlocks(ast, bs[..|bs| - 1], c)
      case Err(e) => Err(e)
      case Ok(prev) =>
        var b := bs[|bs| - 1];
        match SaEs(Corrected, ast, b, b.terms, prev.1)
        case Err(e) => Err(e)
        case Ok(l) => Ok((prev.0 + [BlockEntry(b, l.anf)], l.counter))
  }

  /** Lowering one block more extends the entries by that block's. */
  lemma LoweredBlocksStep(ast: S.Ast, bs: seq<S.Block>, i: nat, c: nat)
    requires i < |bs|
    ensures LoweredBlocks(ast, bs[..i + 1], c) ==
              match LoweredBlocks(ast, bs[..i], c)
              case Err(e) => Err(e)
              case Ok(prev) =>
                match SaEs(Corrected, ast, bs[i], bs[i].terms, prev.1)
                case Err(e) => Err(e)
                case Ok(l) => Ok((prev.0 + [BlockEntry(bs[i], l.anf)], l.counter))
  {
    assert bs[..i + 1][..i] == bs[..i];
    assert bs[..i + 1][i] == bs[i];
  }

  /** A block that fails to lower makes every longer list fail. */
  lemma {:induction false} LoweredBlocksErrPersists(ast: S.Ast, bs: seq<S.Block>, k: nat, c: nat)
    requires k <= |bs| && LoweredBlocks(ast, bs[..k], c).Err?
    ensures LoweredBlocks(ast, bs, c).Err? && LoweredBlocks(ast, bs, c).error == LoweredBlocks(ast, bs[..k], c).error
    decreases |bs|
  {
    if k < |bs| {
      assert bs[..|bs| - 1][..k] == bs[..k];
      LoweredBlocksErrPersists(ast, bs[..|bs| - 1], k, c);
    } else {
      assert bs[..k] == bs;
    }
  }

  /** What `SA_BS` yields for `bs` and the counter after it. */
  function BlocksLetRec(ast: S.Ast, bs: seq<S.Block>, c: nat): Result<(Anf, nat), string>
  {
    if bs == [] then Err("IndexError")
    else
      match LoweredBlocks(ast, bs, c)
      case Err(e) => Err(e)
      case Ok(entries) => Ok((LetRec(LabelConsts(bs), entries.0, App([], AConst(bs[0].labelText))), entries.1))
  }

  /** One entry per block, in order, each a λ over the block's phi variables. */
  lemma {:induction false} LoweredBlocksShape(ast: S.Ast, bs: seq<S.Block>, c: nat)
    requires LoweredBlocks(ast, bs, c).Ok?
    ensures var defs := LoweredBlocks(ast, bs, c).value.0;
            |defs| == |bs| &&
            forall i :: 0 <= i < |bs| ==> defs[i].AFunc? && defs[i].params == SaVs(S.PhiTargets(bs[i].terms))
  {
    if bs != [] {
      LoweredBlocksShape(ast, bs[..|bs| - 1], c);
    }
  }

  predicate BlocksNoBufferTargets(bs: seq<S.Block>)
  {
    forall i :: 0 <= i < |bs| ==> NoBufferTargets(bs[i].terms)
  }

  /** Across blocks the buffers go on being numbered from where the previous
      block stopped. */
  lemma {:induction false} LoweredBlocksBuffers(ast: S.Ast, bs: seq<S.Block>, c: nat)
    requires BlocksNoBufferTargets(bs)
    requires LoweredBlocks(ast, bs, c).Ok?
    ensures var r := LoweredBlocks(ast, bs, c).value;
            c <= r.1 && BuffersOf(r.0) == Range(c, r.1)
  {
    if bs != [] {
      var init := bs[..|bs| - 1];
      assert BlocksNoBufferTargets(init) by {
        forall i | 0 <= i < |init| ensures NoBufferTargets(init[i].terms) {
          assert init[i] == bs[i];
        }
      }
      LoweredBlocksBuffers(ast, init, c);
      var prev := LoweredBlocks(ast, init, c).value;
      var b := bs[|bs| - 1];
      assert NoBufferTargets(b.terms);
      BuffersNumbered(ast, b, b.terms, prev.1);
      var l := SaEs(Corrected, ast, b, b.terms, prev.1).value;
      var defs := prev.0 + [BlockEntry(b, l.anf)];
      assert defs[..|defs| - 1] == prev.0;
      RangeAppend(c, prev.1, l.counter);
    }
  }

  /** A `letrec` whose body is an application binds exactly the buffers of
      its entries. */
  lemma LetRecBuffers(names: seq<Anf>, defs: seq<Anf>, args: seq<Anf>, fn: Anf)
    requires !fn.Let? && !fn.If? && !fn.AFunc? && !fn.LetRec?
    ensures Buffers(LetRec(names, defs, App(args, fn))) == BuffersOf(defs)
  {
    assert Buffers(App(args, fn)) == [];
  }

  /** What `SA_PS`'s `ret_term.func_call.name` gives `SA_V` to map. */
  function RetCallee(retTerm: S.Term): Result<Anf, string>
  {
    match retTerm
    case Ret(Some(FuncCall(callee, _))) => Ok(SaV(callee))
    // a variable's `name` is a plain string, which `SA_V` does not map
    case Ret(Some(Var(_))) => Ok(NotImpl)
    case _ => Err("AttributeError")
  }

  function ProcNames(ps: seq<S.Proc>): (r: seq<Anf>)
    ensures |r| == |ps| && forall i :: 0 <= i < |ps| ==> r[i] == AVar(ps[i].name)
  {
    seq(|ps|, i requires 0 <= i < |ps| => AVar(ps[i].name))
  }

  /** The `letrec`s of `ps`' blocks, lowered in order, and the counter after. */
  function LoweredProcs(ast: S.Ast, ps: seq<S.Proc>, c: nat): Result<(seq<Anf>, nat), string>
  {
    if ps == [] then Ok(([], c))
    else
      match LoweredProcs(ast, ps[..|ps| - 1], c)
      case Err(e) => Err(e)
      case Ok(prev) =>
        match BlocksLetRec(ast, ps[|ps| - 1].blocks, prev.1)
        case Err(e) => Err(e)
        case Ok(l) => Ok((prev.0 + [l.0], l.1))
  }

  lemma LoweredProcsStep(ast: S.Ast, ps: seq<S.Proc>, i: nat, c: nat)
    requires i < |ps|
    ensures LoweredProcs(ast, ps[..i + 1], c) ==
              match LoweredProcs(ast, ps[..i], c)
              case Err(e) => Err(e)
              case Ok(prev) =>
                match BlocksLetRec(ast, ps[i].blocks, prev.1)
                case Err(e) => Err(e)
                case Ok(l) => Ok((prev.0 + [l.0], l.1))
  {
    assert ps[..i + 1][..i] == ps[..i];
    assert ps[..i + 1][i] == ps[i];
  }

  lemma {:induction false} LoweredProcsErrPersists(ast: S.Ast, ps: seq<S.Proc>, k: nat, c: nat)
    requires k <= |ps| && LoweredProcs(ast, ps[..k], c).Err?
    ensures LoweredProcs(ast, ps, c).Err? && LoweredProcs(ast, ps, c).error == LoweredProcs(ast, ps[..k], c).error
    decreases |ps|
  {
    if k < |ps| {
      assert ps[..|ps| - 1][..k] == ps[..k];
      LoweredProcsErrPersists(ast, ps[..|ps| - 1], k, c);
    } else {
      assert ps[..k] == ps;
    }
  }

  /** What `SA_PS` yields for `ps` and the return term, and the counter after:
      the first procedure is lowered, then the return term read, then the
      other procedures lowered. */
  function ProgramLetRec(ast: S.Ast, ps: seq<S.Proc>, retTerm: S.Term, c: nat): Result<(Anf, nat), string>
  {
    if ps == [] then Err("IndexError")
    else
      match BlocksLetRec(ast, ps[0].blocks, c)
      case Err(e) => Err(e)
      case Ok(first) =>
        match RetCallee(retTerm)
        case Err(e) => Err(e)
        case Ok(callee) =>
          match LoweredProcs(ast, ps[1..], first.1)
          case Err(e) => Err(e)
          case Ok(rest) => Ok((LetRec(ProcNames(ps), [first.0] + rest.0, App([], callee)), rest.1))
  }

  lemma {:induction false} LoweredProcsShape(ast: S.Ast, ps: seq<S.Proc>, c: nat)
    requires LoweredProcs(ast, ps, c).Ok?
    ensures var defs := LoweredProcs(ast, ps, c).value.0;
            |defs| == |ps| &&
            forall i :: 0 <= i < |ps| ==> defs[i].LetRec? && defs[i].names == LabelConsts(ps[i].blocks)
  {
    if ps != [] {
      LoweredProcsShape(ast, ps[..|ps| - 1], c);
    }
  }

  /** One entry per procedure, in order, named by the procedure and holding the
      `letrec` of its blocks; the program ends by applying the returned call. */
  lemma ProgramShape(ast: S.Ast, ps: seq<S.Proc>, retTerm: S.Term, c: nat)
    requires ProgramLetRec(ast, ps, retTerm, c).Ok?
    ensures var p := ProgramLetRec(ast, ps, retTerm, c).value.0;
            p.LetRec? && |p.names| == |p.defs| == |ps| &&
            (forall i :: 0 <= i < |ps| ==>
               p.names[i] == AVar(ps[i].name) && p.defs[i].LetRec? && p.defs[i].names == LabelConsts(ps[i].blocks)) &&
            p.body == App([], RetCallee(retTerm).value)
  {
    LoweredProcsShape(ast, ps[1..], BlocksLetRec(ast, ps[0].blocks, c).value.1);
  }

  predicate ProcsNoBufferTargets(ps: seq<S.Proc>)
  {
    forall i :: 0 <= i < |ps| ==> BlocksNoBufferTargets(ps[i].blocks)
  }

  lemma BlocksLetRecBuffers(ast: S.Ast, bs: seq<S.Block>, c: nat)
    requires BlocksNoBufferTargets(bs)
    requires BlocksLetRec(ast, bs, c).Ok?
    ensures var r := BlocksLetRec(ast, bs, c).value;
            c <= r.1 && Buffers(r.0) == Range(c, r.1)
  {
    LoweredBlocksBuffers(ast, bs, c);
    var entries := LoweredBlocks(ast, bs, c).value;
    LetRecBuffers(LabelConsts(bs), entries.0, [], AConst(bs[0].labelText));
  }

  lemma {:induction false} LoweredProcsBuffers(ast: S.Ast, ps: seq<S.Proc>, c: nat)
    requires ProcsNoBufferTargets(ps)
    requires LoweredProcs(ast, ps, c).Ok?
    ensures var r := LoweredProcs(ast, ps, c).value;
            c <= r.1 && BuffersOf(r.0) == Range(c, r.1)
  {
    if ps != [] {
      var init := ps[..|ps| - 1];
      assert ProcsNoBufferTargets(init) by {
        forall i | 0 <= i < |init| ensures BlocksNoBufferTargets(init[i].blocks) {
          assert init[i] == ps[i];
        }
      }
      LoweredProcsBuffers(ast, init, c);
      var prev := LoweredProcs(ast, init, c).value;
      var p := ps[|ps| - 1];
      BlocksLetRecBuffers(ast, p.blocks, prev.1);
      var l := BlocksLetRec(ast, p.blocks, prev.1).value;
      var defs := prev.0 + [l.0];
      assert defs[..|defs| - 1] == prev.0;
      RangeAppend(c, prev.1, l.1);
    }
  }

  lemma {:induction false} BuffersOfCons(a: Anf, nodes: seq<Anf>)
    ensures BuffersOf([a] + nodes) == Buffers(a) + BuffersOf(nodes)
    decreases |nodes|
  {
    if nodes != [] {
      var init := nodes[..|nodes| - 1];
      BuffersOfCons(a, init);
      assert ([a] + nodes)[..|[a] + nodes| - 1] == [a] + init;
    } else {
      assert ([a] + nodes)[..0] == [];
    }
  }

  /**
   * Over a whole program the buffers are numbered consecutively from the
   * counter at the start, so no two standalone calls share a buffer name.
   */
  lemma ProgramBuffersDistinct(ast: S.Ast, ps: seq<S.Proc>, retTerm: S.Term, c: nat)
    requires ProcsNoBufferTargets(ps)
    requires ProgramLetRec(ast, ps, retTerm, c).Ok?
    ensures var r := ProgramLetRec(ast, ps, retTerm, c).value;
            c <= r.1 && Buffers(r.0) == Range(c, r.1) && NoDuplicates(Buffers(r.0))
  {
    var r := ProgramLetRec(ast, ps, retTerm, c).value;
    assert BlocksNoBufferTargets(ps[0].blocks);
    BlocksLetRecBuffers(ast, ps[0].blocks, c);
    var first := BlocksLetRec(ast, ps[0].blocks, c).value;
    assert ProcsNoBufferTargets(ps[1..]) by {
      forall i | 0 <= i < |ps[1..]| ensures BlocksNoBufferTargets(ps[1..][i].blocks) {
        assert ps[1..][i] == ps[i + 1];
      }
    }
    LoweredProcsBuffers(ast, ps[1..], first.1);
    var rest := LoweredProcs(ast, ps[1..], first.1).value;
    BuffersOfCons(first.0, rest.0);
    RangeAppend(c, first.1, rest.1);
    var callee := RetCallee(retTerm).value;
    assert callee.AVar? || callee.AConst? || callee.App?;
    LetRecBuffers(ProcNames(ps), [first.0] + rest.0, [], callee);
    RangeDistinct(c, r.1);
  }

  lemma LabelConstsSnoc(bs: seq<S.Block>, i: nat)
    requires i < |bs|
    ensures LabelConsts(bs[..i + 1]) == LabelConsts(bs[..i]) + [AConst(bs[i].labelText)]
  {
  }

  lemma ProcNamesSnoc(ps: seq<S.Proc>, i: nat)
    requires i < |ps|
    ensures ProcNames(ps[..i + 1]) == ProcNames(ps[..i]) + [AVar(ps[i].name)]
  {
  }

  /** The entries for the first `i` of `bs` have been built, and the counter
      is the one they leave. */
  ghost predicate BlockEntriesBuilt(ast: S.Ast, bs: seq<S.Block>, i: nat, c0: nat,
                                    names: seq<Anf>, defs: seq<Anf>, counter: nat)
  {
    i <= |bs| && LoweredBlocks(ast, bs[..i], c0).Ok? &&
    names == LabelConsts(bs[..i]) &&
    defs == LoweredBlocks(ast, bs[..i], c0).value.0 &&
    counter == LoweredBlocks(ast, bs[..i], c0).value.1
  }

  lemma BlockEntriesStart(ast: S.Ast, bs: seq<S.Block>, c0: nat)
    ensures BlockEntriesBuilt(ast, bs, 0, c0, [], [], c0)
  {
    assert bs[..0] == [];
  }

  lemma BlockEntriesStep(ast: S.Ast, bs: seq<S.Block>, i: nat, c0: nat,
                         names: seq<Anf>, defs: seq<Anf>, counter: nat)
    requires i < |bs| && BlockEntriesBuilt(ast, bs, i, c0, names, defs, counter)
    requires SaEs(Corrected, ast, bs[i], bs[i].terms, counter).Ok?
    ensures var l := SaEs(Corrected, ast, bs[i], bs[i].terms, counter).value;
            BlockEntriesBuilt(ast, bs, i + 1, c0, names + [AConst(bs[i].labelText)],
                              defs + [AFunc(SaVs(S.PhiTargets(bs[i].terms)), l.anf)], l.counter)
  {
    LoweredBlocksStep(ast, bs, i, c0);
    LabelConstsSnoc(bs, i);
  }

  lemma BlockEntriesFail(ast: S.Ast, bs: seq<S.Block>, i: nat, c0: nat,
                         names: seq<Anf>, defs: seq<Anf>, counter: nat)
    requires i < |bs| && BlockEntriesBuilt(ast, bs, i, c0, names, defs, counter)
    requires SaEs(Corrected, ast, bs[i], bs[i].terms, counter).Err?
    ensures LoweredBlocks(ast, bs, c0).Err?
    ensures LoweredBlocks(ast, bs, c0).error == SaEs(Corrected, ast, bs[i], bs[i].terms, counter).error
  {
    LoweredBlocksStep(ast, bs, i, c0);
    LoweredBlocksErrPersists(ast, bs, i + 1, c0);
  }

  lemma BlockEntriesEnd(ast: S.Ast, bs: seq<S.Block>, c0: nat, names: seq<Anf>, defs: seq<Anf>, counter: nat)
    requires BlockEntriesBuilt(ast, bs, |bs|, c0, names, defs, counter)
    ensures LoweredBlocks(ast, bs, c0).Ok?
    ensures names == LabelConsts(bs) && defs == LoweredBlocks(ast, bs, c0).value.0
    ensures counter == LoweredBlocks(ast, bs, c0).value.1
  {
    assert bs[..|bs|] == bs;
  }

  /** The entries for the first `i` of `ps` have been appended to `names0`
      and `defs0`, and the counter is the one they leave. */
  ghost predicate ProcEntriesBuilt(ast: S.Ast, ps: seq<S.Proc>, i: nat, c0: nat, names0: seq<Anf>, defs0: seq<Anf>,
                                   names: seq<Anf>, defs: seq<Anf>, counter: nat)
  {
    i <= |ps| && LoweredProcs(ast, ps[..i], c0).Ok? &&
    names == names0 + ProcNames(ps[..i]) &&
    defs == defs0 + LoweredProcs(ast, ps[..i], c0).value.0 &&
    counter == LoweredProcs(ast, ps[..i], c0).value.1
  }

  lemma ProcEntriesStart(ast: S.Ast, ps: seq<S.Proc>, c0: nat, names0: seq<Anf>, defs0: seq<Anf>)
    ensures ProcEntriesBuilt(ast, ps, 0, c0, names0, defs0, names0, defs0, c0)
  {
    assert ps[..0] == [];
  }

  lemma ProcEntriesStep(ast: S.Ast, ps: seq<S.Proc>, i: nat, c0: nat, names0: seq<Anf>, defs0: seq<Anf>,
                        names: seq<Anf>, defs: seq<Anf>, counter: nat)
    requires i < |ps| && ProcEntriesBuilt(ast, ps, i, c0, names0, defs0, names, defs, counter)
    requires BlocksLetRec(ast, ps[i].blocks, counter).Ok?
    ensures var l := BlocksLetRec(ast, ps[i].blocks, counter).value;
            ProcEntriesBuilt(ast, ps, i + 1, c0, names0, defs0, names + [AVar(ps[i].name)], defs + [l.0], l.1)
  {
    LoweredProcsStep(ast, ps, i, c0);
    ProcNamesSnoc(ps, i);
  }

  lemma ProcEntriesFail(ast: S.Ast, ps: seq<S.Proc>, i: nat, c0: nat, names0: seq<Anf>, defs0: seq<Anf>,
                        names: seq<Anf>, defs: seq<Anf>, counter: nat)
    requires i < |ps| && ProcEntriesBuilt(ast, ps, i, c0, names0, defs0, names, defs, counter)
    requires BlocksLetRec(ast, ps[i].blocks, counter).Err?
    ensures LoweredProcs(ast, ps, c0).Err?
    ensures LoweredProcs(ast, ps, c0).error == BlocksLetRec(ast, ps[i].blocks, counter).error
  {
    LoweredProcsStep(ast, ps, i, c0);
    LoweredProcsErrPersists(ast, ps, i + 1, c0);
  }

  lemma ProcEntriesEnd(ast: S.Ast, ps: seq<S.Proc>, c0: nat, names0: seq<Anf>, defs0: seq<Anf>,
                       names: seq<Anf>, defs: seq<Anf>, counter: nat)
    requires ProcEntriesBuilt(ast, ps, |ps|, c0, names0, defs0, names, defs, counter)
    ensures LoweredProcs(ast, ps, c0).Ok?
    ensures names == names0 + ProcNames(ps) && defs == defs0 + LoweredProcs(ast, ps, c0).value.0
    ensures counter == LoweredProcs(ast, ps, c0).value.1
  {
    assert ps[..|ps|] == ps;
  }

  /** The lowering run: the program being lowered and the buffer counter,
      which the source keeps in module globals. */
  class Lowering {
    const ast: S.Ast
    var bufferCounter: nat

    /** A lowering of `ast` that numbers buffers on from `counter`, where the
        module's counter stands. */
    constructor (ast: S.Ast, counter: nat)
      ensures this.ast == ast && bufferCounter == counter
    {
      this.ast := ast;
      bufferCounter := counter;
    }

    /** `SA_BS`. */
    method SaBs(bs: seq<S.Block>) returns (r: Result<Anf, string>)
      modifies this
      ensures var spec := BlocksLetRec(ast, bs, old(bufferCounter));
              r.Ok? == spec.Ok? && (spec.Ok? ==> r.value == spec.value.0 && bufferCounter == spec.value.1) &&
              (spec.Err? ==> r.error == spec.error)
    {
      ghost var c0 := bufferCounter;
      if bs == [] {
        return Err("IndexError");
      }
      var b := bs[0];
      var phiVars := S.GetPhiVarsInBlock(b);
      var lowered := SaEs(Corrected, ast, b, b.terms, bufferCounter);
      BlockEntriesStart(ast, bs, c0);
      if lowered.Err? {
        BlockEntriesFail(ast, bs, 0, c0, [], [], c0);
        return Err(lowered.error);
      }
      BlockEntriesStep(ast, bs, 0, c0, [], [], c0);
      bufferCounter := lowered.value.counter;
      var letRec := new LetRecBuilder(AConst(b.labelText), AFunc(SaVs(phiVars), lowered.value.anf),
                                      App([], AConst(b.labelText)));
      var i := 1;
      while i < |bs|
        invariant 1 <= i <= |bs|
        invariant fresh(letRec) && letRec.Valid()
        invariant BlockEntriesBuilt(ast, bs, i, c0, letRec.names, letRec.defs, bufferCounter)
        invariant letRec.body == App([], AConst(bs[0].labelText))
      {
        b := bs[i];
        phiVars := S.GetPhiVarsInBlock(b);
        lowered := SaEs(Corrected, ast, b, b.terms, bufferCounter);
        if lowered.Err? {
          BlockEntriesFail(ast, bs, i, c0, letRec.names, letRec.defs, bufferCounter);
          return Err(lowered.error);
        }
        BlockEntriesStep(ast, bs, i, c0, letRec.names, letRec.defs, bufferCounter);
        bufferCounter := lowered.value.counter;
        letRec.AddEntry(AConst(b.labelText), AFunc(SaVs(phiVars), lowered.value.anf));
        i := i + 1;
      }
      BlockEntriesEnd(ast, bs, c0, letRec.names, letRec.defs, bufferCounter);
      r := Ok(LetRec(letRec.names, letRec.defs, letRec.body));
    }

    /** `SA_PS`, with the return term it is handed. */
    method SaPs(ps: seq<S.Proc>, retTerm: S.Term) returns (r: Result<Anf, string>)
      modifies this
      ensures var spec := ProgramLetRec(ast, ps, retTerm, old(bufferCounter));
              r.Ok? == spec.Ok? && (spec.Ok? ==> r.value == spec.value.0 && bufferCounter == spec.value.1) &&
              (spec.Err? ==> r.error == spec.error)
    {
      if ps == [] {
        return Err("IndexError");
      }
      var first := SaBs(ps[0].blocks);
      if first.Err? {
        return Err(first.error);
      }
      var callee := RetCallee(retTerm);
      if callee.Err? {
        return Err(callee.error);
      }
      var letRec := new LetRecBuilder(AVar(ps[0].name), first.value, App([], callee.value));
      var failure := AddProcEntries(letRec, ps[1..]);
      if failure.Some? {
        return Err(failure.value);
      }
      assert letRec.names == ProcNames(ps);
      r := Ok(LetRec(letRec.names, letRec.defs, letRec.body));
    }

    /** The loop of `SA_PS`: one entry per further procedure, named by it and
        holding the `letrec` of its blocks; the error of the first procedure
        that fails to lower, if one does. */
    method AddProcEntries(letRec: LetRecBuilder, ps: seq<S.Proc>) returns (failure: Option<string>)
      requires letRec.Valid()
      modifies this, letRec
      ensures letRec.Valid()
      ensures var spec := LoweredProcs(ast, ps, old(bufferCounter));
              failure.None? == spec.Ok? &&
              (failure.None? ==>
                 letRec.names == old(letRec.names) + ProcNames(ps) &&
                 letRec.defs == old(letRec.defs) + spec.value.0 &&
                 letRec.body == old(letRec.body) &&
                 bufferCounter == spec.value.1) &&
              (failure.Some? ==> spec.Err? && failure.value == spec.error)
    {
      ghost var c0 := bufferCounter;
      ghost var names0, defs0 := letRec.names, letRec.defs;
      ProcEntriesStart(ast, ps, c0, names0, defs0);
      var i := 0;
      while i < |ps|
        invariant 0 <= i <= |ps|
        invariant letRec.Valid() && letRec.body == old(letRec.body)
        invariant ProcEntriesBuilt(ast, ps, i, c0, names0, defs0, letRec.names, letRec.defs, bufferCounter)
      {
        ghost var namesBefore, defsBefore, counterBefore := letRec.names, letRec.defs, bufferCounter;
        var blocks := SaBs(ps[i].blocks);
        if blocks.Err? {
          ProcEntriesFail(ast, ps, i, c0, names0, defs0, namesBefore, defsBefore, counterBefore);
          return Some(blocks.error);
        }
        letRec.AddEntry(AVar(ps[i].name), blocks.value);
        ProcEntriesStep(ast, ps, i, c0, names0, defs0, namesBefore, defsBefore, counterBefore);
        i := i + 1;
      }
      ProcEntriesEnd(ast, ps, c0, names0, defs0, letRec.names, letRec.defs, bufferCounter);
      return None;
    }
  }

  /**
   * The module-level state of the lowering: `buffer_variable_counter` is
   * set to 0 once, when the module is loaded, and never reset, so every
   * call of `SA` numbers its buffers on from where the previous call
   * stopped.
   */
  class AnfModule {
    var bufferCounter: nat

    constructor ()
      ensures bufferCounter == 0
    {
      bufferCounter := 0;
    }

    /** `SA`: the program is lowered with the counter as the module holds it,
        and the module keeps the counter the lowering leaves. */
    method Sa(ast: S.Ast, retTerm: S.Term) returns (r: Result<Anf, string>)
      modifies this
      ensures var spec := ProgramLetRec(ast, ast.procs, retTerm, old(bufferCounter));
              r.Ok? == spec.Ok? && (spec.Ok? ==> r.value == spec.value.0 && bufferCounter == spec.value.1) &&
              (spec.Err? ==> r.error == spec.error)
    {
      var lowering := new Lowering(ast, bufferCounter);
      r := lowering.SaPs(ast.procs, retTerm);
      bufferCounter := lowering.bufferCounter;
    }
  }

  /** Two calls of `SA` in a row, the second starting where the first left
      the counter, bind disjoint sets of buffers. */
  lemma SaCallsBuffersApart(ast: S.Ast, retTerm: S.Term, ast': S.Ast, retTerm': S.Term, c: nat)
    requires ProcsNoBufferTargets(ast.procs) && ProcsNoBufferTargets(ast'.procs)
    requires ProgramLetRec(ast, ast.procs, retTerm, c).Ok?
    requires ProgramLetRec(ast', ast'.procs, retTerm', ProgramLetRec(ast, ast.procs, retTerm, c).value.1).Ok?
    ensures var first := ProgramLetRec(ast, ast.procs, retTerm, c).value;
            var second := ProgramLetRec(ast', ast'.procs, retTerm', first.1).value;
            forall n :: n in Buffers(first.0) ==> n !in Buffers(second.0)
  {
    var first := ProgramLetRec(ast, ast.procs, retTerm, c).value;
    ProgramBuffersDistinct(ast, ast.procs, retTerm, c);
    ProgramBuffersDistinct(ast', ast'.procs, retTerm', first.1);
  }
}
