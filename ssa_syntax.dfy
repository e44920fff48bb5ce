/**
 * The SSA intermediate representation (src/scalpel/SSA/ssa_syntax.py): its
 * node types and printers, the block and phi lookups the ANF lowering relies
 * on, the phi assignments built from the renaming tables, the memoised block
 * labels and the assembly of blocks, and the ordering of a procedure's blocks
 * by label.
 */
module SsaSyntax {
  import opened Common
  import SsaConst

  // ---------------------------------------------------------------------------
  // Nodes

  /** `SSA_V_VAR`, `SSA_V_CONST`, an `SSA_L` label used as a value, and
      `SSA_V_FUNC_CALL`, whose callee is itself a value. */
  datatype Value =
    | Var(name: string)
    | Const(text: string)
    | Label(labelText: string)
    | FuncCall(callee: Value, args: seq<Value>)

  /** `SSA_E_ASS`, `SSA_E_ASS_PHI`, `SSA_E_GOTO`, `SSA_E_RET` (with or without
      a call), `SSA_E_IF_ELSE`, and a value standing alone as a statement. */
  datatype Term =
    | Assign(target: Value, value: Value)
    | Phi(target: Value, args: seq<Value>)
    | Goto(labelText: string)
    | Ret(call: Option<Value>)
    | IfElse(test: Value, thenTerm: Term, elseTerm: Term)
    | Expr(value: Value)

  /** `SSA_B`. A block's term list may hold `None` (a statement kind the
      translation does not handle), hence `Option<Term>`. */
  datatype Block = Block(labelText: string, terms: seq<Option<Term>>, firstInProc: bool)

  /** `SSA_P`: a procedure's name and its blocks. */
  datatype Proc = Proc(name: string, blocks: seq<Block>)

  /** `SSA_AST`: the procedures and the top-level blocks. */
  datatype Ast = Ast(procs: seq<Proc>, blocks: seq<Block>)

  // ---------------------------------------------------------------------------
  // Printing

  /** `get_indentation`: two spaces per nesting level. */
  function Indent(n: nat): (r: string)
    ensures |r| == 2 * n
    ensures forall i :: 0 <= i < |r| ==> r[i] == ' '
  {
    if n == 0 then "" else Indent(n - 1) + "  "
  }

  /** A value's text; the nesting level every `print` receives plays no part
      for values. */
  function PrintValue(v: Value): string
    decreases v, 1
  {
    match v
    case Var(name) => name
    case Const(text) => text
    case Label(labelText) => labelText
    case FuncCall(callee, args) => PrintValue(callee) + PrintArgs(args)
  }

  function PrintValues(vs: seq<Value>): (r: seq<string>)
    ensures |r| == |vs|
    ensures forall i :: 0 <= i < |vs| ==> r[i] == PrintValue(vs[i])
    decreases vs, 0
  {
    if vs == [] then [] else [PrintValue(vs[0])] + PrintValues(vs[1..])
  }

  /** `print_args`: the printed values between parentheses, separated by
      a comma and a space. */
  function PrintArgs(args: seq<Value>): (r: string)
    ensures |r| >= 2 && r[0] == '(' && r[|r| - 1] == ')'
    ensures args == [] ==> r == "()"
    decreases args, 2
  {
    "(" + Join(PrintValues(args), ", ") + ")"
  }

  /** The inside of a printed argument list splits back into the printed
      arguments when none of them contains a comma. */
  lemma PrintArgsSplit(args: seq<Value>)
    requires |args| >= 1
    requires forall a :: a in args ==> ',' !in PrintValue(a)
    ensures var r := PrintArgs(args);
      Split(r[1..|r| - 1], ", ") == PrintValues(args)
  {
    var r := PrintArgs(args);
    var parts := PrintValues(args);
    assert r[1..|r| - 1] == Join(parts, ", ");
    forall p | p in parts ensures ", "[0] !in p {
      var i :| 0 <= i < |parts| && parts[i] == p;
      assert args[i] in args;
    }
    SplitJoin(parts, ", ");
  }

  /** A term's text; `if` terms break their line and indent the `else`. */
  function PrintTerm(t: Term, lvl: nat): string
  {
    match t
    case Assign(target, value) => PrintValue(target) + " \U{2190} " + PrintValue(value)
    case Phi(target, args) => PrintValue(target) + " \U{2190} \U{03C6}" + PrintArgs(args)
    case Goto(labelText) => "goto L" + labelText
    case Ret(None) => "ret"
    case Ret(Some(call)) => "ret " + PrintValue(call) + ";"
    case IfElse(test, thenTerm, elseTerm) =>
      "if " + PrintValue(test) + " then " + PrintTerm(thenTerm, lvl) + "\n" + Indent(lvl) + "else " +
      PrintTerm(elseTerm, lvl)
    case Expr(value) => PrintValue(value)
  }

  /** The lines `print_terms` joins: each present term, indented; absent
      terms are skipped. */
  function PrintedTerms(terms: seq<Option<Term>>, lvl: nat): seq<string>
  {
    if terms == [] then []
    else
      var rest := PrintedTerms(terms[..|terms| - 1], lvl);
      match terms[|terms| - 1]
      case None => rest
      case Some(t) => rest + [Indent(lvl) + PrintTerm(t, lvl)]
  }

  /** `print_terms`: the lines joined by `";\n"`, with a final `';'`. */
  function PrintTerms(terms: seq<Option<Term>>, lvl: nat): (r: string)
    ensures |r| >= 1 && r[|r| - 1] == ';'
  {
    Join(PrintedTerms(terms, lvl), ";\n") + ";"
  }

  /** Every present term gives one line, in order, prefixed with the
      indentation; absent terms give none. */
  lemma {:induction false} PrintedTermsLines(terms: seq<Option<Term>>, lvl: nat)
    ensures |PrintedTerms(terms, lvl)| == |terms| - Count(None, terms)
    ensures forall p :: p in PrintedTerms(terms, lvl) ==>
              StartsWith(p, Indent(lvl)) && exists t :: Some(t) in terms && p == Indent(lvl) + PrintTerm(t, lvl)
  {
    if terms != [] {
      var init := terms[..|terms| - 1];
      var last := terms[|terms| - 1];
      PrintedTermsLines(init, lvl);
      assert terms == init + [last];
      CountAppend(None, init, [last]);
      assert Count(None, [last]) == (if last == None then 1 else 0) by {
        assert [last][..0] == [];
      }
      forall p | p in PrintedTerms(terms, lvl)
        ensures StartsWith(p, Indent(lvl)) && exists t :: Some(t) in terms && p == Indent(lvl) + PrintTerm(t, lvl)
      {
        if p in PrintedTerms(init, lvl) {
          var t :| Some(t) in init && p == Indent(lvl) + PrintTerm(t, lvl);
          assert Some(t) in terms;
        } else {
          assert last.Some? && p == Indent(lvl) + PrintTerm(last.value, lvl);
          assert (Indent(lvl) + PrintTerm(last.value, lvl))[..|Indent(lvl)|] == Indent(lvl);
        }
      }
    }
  }

  /** The printed terms split back into their lines when no line has a
      semicolon of its own. */
  lemma PrintTermsSplit(terms: seq<Option<Term>>, lvl: nat)
    requires |PrintedTerms(terms, lvl)| >= 1
    requires forall p :: p in PrintedTerms(terms, lvl) ==> ';' !in p
    ensures var r := PrintTerms(terms, lvl);
      Split(r[..|r| - 1], ";\n") == PrintedTerms(terms, lvl)
  {
    var r := PrintTerms(terms, lvl);
    assert r[..|r| - 1] == Join(PrintedTerms(terms, lvl), ";\n");
    SplitJoin(PrintedTerms(terms, lvl), ";\n");
  }

  /** `SSA_B.print`: the first block of a procedure prints its terms only;
      any other block prints its label line first. */
  function PrintBlock(b: Block, lvl: nat): string
  {
    if b.firstInProc then PrintTerms(b.terms, lvl)
    else Indent(lvl) + "L" + b.labelText + ": " + "\n" + PrintTerms(b.terms, lvl + 1)
  }

  function PrintBlocks(bs: seq<Block>, lvl: nat): (r: seq<string>)
    ensures |r| == |bs|
    ensures forall i :: 0 <= i < |bs| ==> r[i] == PrintBlock(bs[i], lvl)
  {
    if bs == [] then [] else [PrintBlock(bs[0], lvl)] + PrintBlocks(bs[1..], lvl)
  }

  /** `SSA_P.print`. */
  function PrintProc(p: Proc): string
  {
    "proc " + p.name + "()\n{\n" + Join(PrintBlocks(p.blocks, 1), "\n\n") + "\n}\n"
  }

  function PrintProcs(ps: seq<Proc>): (r: seq<string>)
    ensures |r| == |ps|
    ensures forall i :: 0 <= i < |ps| ==> r[i] == PrintProc(ps[i])
  {
    if ps == [] then [] else [PrintProc(ps[0])] + PrintProcs(ps[1..])
  }

  /** `SSA_AST.print`. */
  function PrintAst(a: Ast): string
  {
    Join(PrintProcs(a.procs), "\n") + Join(PrintBlocks(a.blocks, 0), "\n\n")
  }

  /** A block that does not open its procedure is printed behind its label
      line, and its terms one level deeper; the label can be read back from
      that line. */
  lemma PrintBlockLabelLine(b: Block, lvl: nat)
    requires !b.firstInProc
    ensures var header := Indent(lvl) + "L" + b.labelText + ": \n";
      PrintBlock(b, lvl) == header + PrintTerms(b.terms, lvl + 1) &&
      PrintBlock(b, lvl)[2 * lvl + 1..2 * lvl + 1 + |b.labelText|] == b.labelText
  {
    var header := Indent(lvl) + "L" + b.labelText + ": \n";
    assert Indent(lvl) + "L" + b.labelText + ": " + "\n" == header;
    assert (header + PrintTerms(b.terms, lvl + 1))[2 * lvl + 1..2 * lvl + 1 + |b.labelText|] == header[2 * lvl + 1..2 * lvl + 1 + |b.labelText|];
  }

  // ---------------------------------------------------------------------------
  // Looking up blocks

  /** The order `get_block_by_id` searches in: every procedure's blocks, in
      order, then the top-level blocks. */
  function SearchOrder(a: Ast): seq<Block>
  {
    ProcBlocks(a.procs) + a.blocks
  }

  function ProcBlocks(ps: seq<Proc>): seq<Block>
  {
    if ps == [] then [] else ProcBlocks(ps[..|ps| - 1]) + ps[|ps| - 1].blocks
  }

  /** The first of `bs` labelled `id`. */
  function FirstLabelled(bs: seq<Block>, id: string): Option<Block>
  {
    if bs == [] then None
    else if bs[0].labelText == id then Some(bs[0])
    else FirstLabelled(bs[1..], id)
  }

  /** `FirstLabelled` finds the earliest block with the label, and finds
      nothing exactly when no block has it. */
  lemma {:induction false} FirstLabelledIsFirst(bs: seq<Block>, id: string)
    ensures FirstLabelled(bs, id).None? <==> forall b :: b in bs ==> b.labelText != id
    ensures FirstLabelled(bs, id).Some? ==>
              exists i :: 0 <= i < |bs| && bs[i] == FirstLabelled(bs, id).value && bs[i].labelText == id &&
                forall j :: 0 <= j < i ==> bs[j].labelText != id
  {
    if bs == [] {
    } else if bs[0].labelText == id {
      assert bs[0] in bs;
    } else {
      var tail := bs[1..];
      FirstLabelledIsFirst(tail, id);
      assert FirstLabelled(bs, id) == FirstLabelled(tail, id);
      assert forall b :: b in bs ==> b == bs[0] || b in tail;
      assert forall b :: b in tail ==> b in bs;
      if FirstLabelled(tail, id).Some? {
        var i :| 0 <= i < |tail| && tail[i] == FirstLabelled(bs, id).value && tail[i].labelText == id &&
                 forall j :: 0 <= j < i ==> tail[j].labelText != id;
        assert bs[i + 1] == tail[i];
        forall j | 0 <= j < i + 1 ensures bs[j].labelText != id {
          if j > 0 { assert bs[j] == tail[j - 1]; }
        }
      }
    }
  }

  lemma {:induction false} FirstLabelledSkip(xs: seq<Block>, ys: seq<Block>, id: string)
    requires forall b :: b in xs ==> b.labelText != id
    ensures FirstLabelled(xs + ys, id) == FirstLabelled(ys, id)
    decreases |xs|
  {
    if xs == [] {
      assert xs + ys == ys;
    } else {
      assert (xs + ys)[0] == xs[0] && xs[0] in xs;
      assert (xs + ys)[1..] == xs[1..] + ys;
      assert forall b :: b in xs[1..] ==> b in xs;
      FirstLabelledSkip(xs[1..], ys, id);
    }
  }

  lemma {:induction false} ProcBlocksAppend(ps: seq<Proc>, qs: seq<Proc>)
    ensures ProcBlocks(ps + qs) == ProcBlocks(ps) + ProcBlocks(qs)
    decreases |qs|
  {
    if qs != [] {
      var init := qs[..|qs| - 1];
      assert (ps + qs)[..|ps + qs| - 1] == ps + init;
      ProcBlocksAppend(ps, init);
    } else {
      assert ps + qs == ps;
    }
  }

  /** `get_block_by_id`: the first block labelled `id` in search order, or
      nothing. */
  method GetBlockById(a: Ast, id: string) returns (r: Option<Block>)
    ensures r == FirstLabelled(SearchOrder(a), id)
  {
    ghost var seen: seq<Block> := [];
    var pi := 0;
    while pi < |a.procs|
      invariant 0 <= pi <= |a.procs|
      invariant seen == ProcBlocks(a.procs[..pi])
      invariant forall b :: b in seen ==> b.labelText != id
    {
      var p := a.procs[pi];
      var bi := 0;
      while bi < |p.blocks|
        invariant 0 <= bi <= |p.blocks|
        invariant forall b :: b in seen + p.blocks[..bi] ==> b.labelText != id
      {
        var b := p.blocks[bi];
        if b.labelText == id {
          FoundInProc(a, id, pi, bi, seen);
          return Some(b);
        }
        assert p.blocks[..bi + 1] == p.blocks[..bi] + [b];
        bi := bi + 1;
      }
      assert p.blocks[..bi] == p.blocks;
      assert a.procs[..pi + 1][..pi] == a.procs[..pi];
      seen := seen + p.blocks;
      pi := pi + 1;
    }
    assert a.procs[..pi] == a.procs;
    var bi := 0;
    while bi < |a.blocks|
      invariant 0 <= bi <= |a.blocks|
      invariant forall b :: b in seen + a.blocks[..bi] ==> b.labelText != id
    {
      var b := a.blocks[bi];
      if b.labelText == id {
        assert a.blocks == a.blocks[..bi] + [b] + a.blocks[bi + 1..];
        assert SearchOrder(a) == (seen + a.blocks[..bi]) + ([b] + a.blocks[bi + 1..]);
        FirstLabelledSkip(seen + a.blocks[..bi], [b] + a.blocks[bi + 1..], id);
        return Some(b);
      }
      assert a.blocks[..bi + 1] == a.blocks[..bi] + [b];
      bi := bi + 1;
    }
    assert a.blocks[..bi] == a.blocks;
    FirstLabelledSkip(SearchOrder(a), [], id);
    assert SearchOrder(a) + [] == SearchOrder(a);
    r := None;
  }

  /** A match at block `bi` of procedure `pi`, after nothing matched before it,
      is the search's answer. */
  lemma FoundInProc(a: Ast, id: string, pi: nat, bi: nat, seen: seq<Block>)
    requires pi < |a.procs| && bi < |a.procs[pi].blocks|
    requires seen == ProcBlocks(a.procs[..pi])
    requires a.procs[pi].blocks[bi].labelText == id
    requires forall b :: b in seen + a.procs[pi].blocks[..bi] ==> b.labelText != id
    ensures FirstLabelled(SearchOrder(a), id) == Some(a.procs[pi].blocks[bi])
  {
    var blocks := a.procs[pi].blocks;
    var rest := ProcBlocks(a.procs[pi + 1..]) + a.blocks;
    assert SearchOrder(a) == seen + blocks + rest by {
      ProcBlocksSplit(a.procs, pi);
    }
    assert SearchOrder(a) == (seen + blocks[..bi]) + ([blocks[bi]] + (blocks[bi + 1..] + rest)) by {
      assert blocks == blocks[..bi] + [blocks[bi]] + blocks[bi + 1..];
    }
    FirstLabelledSkip(seen + blocks[..bi], [blocks[bi]] + (blocks[bi + 1..] + rest), id);
  }

  lemma ProcBlocksSplit(ps: seq<Proc>, i: nat)
    requires i < |ps|
    ensures ProcBlocks(ps) == ProcBlocks(ps[..i]) + ps[i].blocks + ProcBlocks(ps[i + 1..])
  {
    var pre, post := ps[..i + 1], ps[i + 1..];
    assert ps == pre + post;
    ProcBlocksAppend(pre, post);
    ProcBlocksSnoc(ps, i);
  }

  lemma ProcBlocksSnoc(ps: seq<Proc>, i: nat)
    requires i < |ps|
    ensures ProcBlocks(ps[..i + 1]) == ProcBlocks(ps[..i]) + ps[i].blocks
  {
    var pre := ps[..i + 1];
    assert pre[..|pre| - 1] == ps[..i];
  }

  // ---------------------------------------------------------------------------
  // Phi variables

  /** The targets of a term list's phi assignments, in order. */
  function PhiTargets(terms: seq<Option<Term>>): seq<Value>
  {
    if terms == [] then []
    else
      var rest := PhiTargets(terms[..|terms| - 1]);
      match terms[|terms| - 1]
      case Some(Phi(target, _)) => rest + [target]
      case _ => rest
  }

  lemma {:induction false} PhiTargetsMember(terms: seq<Option<Term>>, v: Value)
    ensures v in PhiTargets(terms) <==> exists args :: Some(Phi(v, args)) in terms
  {
    if terms != [] {
      var init := terms[..|terms| - 1];
      PhiTargetsMember(init, v);
      assert terms == init + [terms[|terms| - 1]];
      if exists args :: Some(Phi(v, args)) in terms {
        var args :| Some(Phi(v, args)) in terms;
        if Some(Phi(v, args)) in init {
        } else {
          assert terms[|terms| - 1] == Some(Phi(v, args));
        }
      }
      if v in PhiTargets(terms) && v !in PhiTargets(init) {
        var last := terms[|terms| - 1];
        assert last.Some? && last.value.Phi? && last.value.target == v;
        assert Some(Phi(v, last.value.args)) in terms;
      }
    }
  }

  /** `get_phi_vars_in_block`. */
  method GetPhiVarsInBlock(b: Block) returns (phiVars: seq<Value>)
    ensures phiVars == PhiTargets(b.terms)
  {
    phiVars := [];
    var i := 0;
    while i < |b.terms|
      invariant 0 <= i <= |b.terms|
      invariant phiVars == PhiTargets(b.terms[..i])
    {
      assert b.terms[..i + 1][..i] == b.terms[..i];
      match b.terms[i] {
        case Some(Phi(target, _)) => phiVars := phiVars + [target];
        case _ =>
      }
      i := i + 1;
    }
    assert b.terms[..i] == b.terms;
  }

  /** The printed targets of a term list's plain assignments, in order. */
  function AssignedNames(terms: seq<Option<Term>>): seq<string>
  {
    if terms == [] then []
    else
      var rest := AssignedNames(terms[..|terms| - 1]);
      match terms[|terms| - 1]
      case Some(Assign(target, _)) => rest + [PrintValue(target)]
      case _ => rest
  }

  lemma {:induction false} AssignedNamesMember(terms: seq<Option<Term>>, n: string)
    ensures n in AssignedNames(terms) <==>
              exists t, v :: Some(Assign(t, v)) in terms && PrintValue(t) == n
  {
    if terms != [] {
      var init := terms[..|terms| - 1];
      var last := terms[|terms| - 1];
      AssignedNamesMember(init, n);
      assert terms == init + [last];
      if exists t, v :: Some(Assign(t, v)) in terms && PrintValue(t) == n {
        var t, v :| Some(Assign(t, v)) in terms && PrintValue(t) == n;
        if Some(Assign(t, v)) !in init {
          assert last == Some(Assign(t, v));
        }
      }
      if n in AssignedNames(terms) && n !in AssignedNames(init) {
        assert last.Some? && last.value.Assign? && PrintValue(last.value.target) == n;
        assert Some(Assign(last.value.target, last.value.value)) in terms;
      }
    }
  }

  /** All phi arguments of a term list, phi by phi. */
  function PhiArgs(terms: seq<Option<Term>>): seq<Value>
  {
    if terms == [] then []
    else
      var rest := PhiArgs(terms[..|terms| - 1]);
      match terms[|terms| - 1]
      case Some(Phi(_, args)) => rest + args
      case _ => rest
  }

  lemma {:induction false} PhiArgsMember(terms: seq<Option<Term>>, v: Value)
    ensures v in PhiArgs(terms) <==> exists t, args :: Some(Phi(t, args)) in terms && v in args
  {
    if terms != [] {
      var init := terms[..|terms| - 1];
      var last := terms[|terms| - 1];
      PhiArgsMember(init, v);
      assert terms == init + [last];
      if exists t, args :: Some(Phi(t, args)) in terms && v in args {
        var t, args :| Some(Phi(t, args)) in terms && v in args;
        if Some(Phi(t, args)) !in init {
          assert last == Some(Phi(t, args));
        }
      }
      if v in PhiArgs(terms) && v !in PhiArgs(init) {
        assert last.Some? && last.value.Phi? && v in last.value.args;
        assert Some(Phi(last.value.target, last.value.args)) in terms;
      }
    }
  }

  /** The values of `vs` whose printed form is one of `names`, in order. */
  function KeepPrinted(names: seq<string>, vs: seq<Value>): seq<Value>
  {
    if vs == [] then []
    else
      var rest := KeepPrinted(names, vs[..|vs| - 1]);
      if PrintValue(vs[|vs| - 1]) in names then rest + [vs[|vs| - 1]] else rest
  }

  lemma {:induction false} KeepPrintedExactly(names: seq<string>, vs: seq<Value>)
    ensures forall v :: v in KeepPrinted(names, vs) <==> v in vs && PrintValue(v) in names
    ensures IsSubsequence(KeepPrinted(names, vs), vs)
  {
    if vs != [] {
      var init := vs[..|vs| - 1];
      KeepPrintedExactly(names, init);
      assert vs == init + [vs[|vs| - 1]];
      var r := KeepPrinted(names, vs);
      if PrintValue(vs[|vs| - 1]) in names {
        assert r[..|r| - 1] == KeepPrinted(names, init);
      }
    }
  }

  /** The phi arguments of `to` that some plain assignment of `from` defines. */
  function JumpArgs(from: Block, to: Block): seq<Value>
  {
    KeepPrinted(AssignedNames(from.terms), PhiArgs(to.terms))
  }

  /**
   * What a jump from `from` to `to` passes: exactly the phi arguments of `to`
   * whose printed name is the printed target of an assignment in `from`, in
   * their order in `to`.
   */
  lemma JumpArgsExactly(from: Block, to: Block)
    ensures IsSubsequence(JumpArgs(from, to), PhiArgs(to.terms))
    ensures forall v :: v in JumpArgs(from, to) <==>
              (exists t, args :: Some(Phi(t, args)) in to.terms && v in args) &&
              (exists t, w :: Some(Assign(t, w)) in from.terms && PrintValue(t) == PrintValue(v))
  {
    KeepPrintedExactly(AssignedNames(from.terms), PhiArgs(to.terms));
    forall v
      ensures v in JumpArgs(from, to) <==>
                (exists t, args :: Some(Phi(t, args)) in to.terms && v in args) &&
                (exists t, w :: Some(Assign(t, w)) in from.terms && PrintValue(t) == PrintValue(v))
    {
      PhiArgsMember(to.terms, v);
      AssignedNamesMember(from.terms, PrintValue(v));
    }
  }

  /** `get_phi_vars_for_jump`. */
  method GetPhiVarsForJump(from: Block, to: Block) returns (varsForJump: seq<Value>)
    ensures varsForJump == JumpArgs(from, to)
  {
    var varNames := AssignedNamesOf(from.terms);
    varsForJump := [];
    var k := 0;
    while k < |to.terms|
      invariant 0 <= k <= |to.terms|
      invariant varsForJump == KeepPrinted(varNames, PhiArgs(to.terms[..k]))
    {
      PhiArgsSnoc(to.terms, k);
      match to.terms[k] {
        case Some(Phi(_, args)) =>
          ghost var before := PhiArgs(to.terms[..k]);
          assert before + args[..0] == before;
          var j := 0;
          while j < |args|
            invariant 0 <= j <= |args|
            invariant varsForJump == KeepPrinted(varNames, before + args[..j])
          {
            KeepPrintedSnoc(varNames, before, args, j);
            if PrintValue(args[j]) in varNames {
              varsForJump := varsForJump + [args[j]];
            }
            j := j + 1;
          }
          assert args[..j] == args;
          assert PhiArgs(to.terms[..k + 1]) == before + args;
        case _ =>
          assert PhiArgs(to.terms[..k + 1]) == PhiArgs(to.terms[..k]);
      }
      k := k + 1;
    }
    assert to.terms[..k] == to.terms;
  }

  /** One more term adds its phi arguments, if it is a phi. */
  lemma PhiArgsSnoc(terms: seq<Option<Term>>, k: nat)
    requires k < |terms|
    ensures PhiArgs(terms[..k + 1]) ==
              PhiArgs(terms[..k]) + (match terms[k] case Some(Phi(_, args)) => args case _ => [])
  {
    assert terms[..k + 1][..k] == terms[..k];
  }

  /** One more value is kept when its printed form is one of the names. */
  lemma KeepPrintedSnoc(names: seq<string>, before: seq<Value>, args: seq<Value>, j: nat)
    requires j < |args|
    ensures KeepPrinted(names, before + args[..j + 1]) ==
              KeepPrinted(names, before + args[..j]) + (if PrintValue(args[j]) in names then [args[j]] else [])
  {
    var vs := before + args[..j + 1];
    assert vs[..|vs| - 1] == before + args[..j] && vs[|vs| - 1] == args[j];
  }

  /** The first loop of `get_phi_vars_for_jump`. */
  method AssignedNamesOf(terms: seq<Option<Term>>) returns (names: seq<string>)
    ensures names == AssignedNames(terms)
  {
    names := [];
    var i := 0;
    while i < |terms|
      invariant 0 <= i <= |terms|
      invariant names == AssignedNames(terms[..i])
    {
      assert terms[..i + 1][..i] == terms[..i];
      match terms[i] {
        case Some(Assign(target, _)) => names := names + [PrintValue(target)];
        case _ =>
      }
      i := i + 1;
    }
    assert terms[..i] == terms;
  }

  // ---------------------------------------------------------------------------
  // Phi assignments from the renaming tables (`PS_PHI`)

  /** `name + '_' + str(version)`: the name of one version of a variable. */
  function Versioned(name: string, version: int): string
  {
    name + "_" + IntToString(version)
  }

  /** Splits a versioned name at its last underscore: the variable's name and
      the version. */
  function Unversioned(s: string): (string, int)
  {
    match LastIndexOf(s, "_")
    case None => (s, 0)
    case Some(k) => (s[..k], IntValue(s[k + 1..]))
  }

  /** A versioned name reads back as the name and the version it was made
      from. */
  lemma UnversionedVersioned(name: string, version: int)
    ensures Unversioned(Versioned(name, version)) == (name, version)
  {
    var d := IntToString(version);
    var s := Versioned(name, version);
    assert s == name + "_" + d;
    assert OccursAt(s, "_", |name|) by {
      assert s[|name|..|name| + 1] == "_";
    }
    forall j: nat | |name| < j ensures !OccursAt(s, "_", j) {
      if j < |s| {
        assert s[j] == d[j - |name| - 1];
        assert s[j..j + 1] == [s[j]];
      }
    }
    var k := LastIndexOf(s, "_").value;
    assert k == |name|;
    assert s[..k] == name && s[k + 1..] == d;
    IntValueOfIntToString(version);
  }

  lemma VersionedInjective(a: string, i: int, b: string, j: int)
    requires Versioned(a, i) == Versioned(b, j)
    ensures a == b && i == j
  {
    UnversionedVersioned(a, i);
    UnversionedVersioned(b, j);
  }

  /** One variable per version, each named by `Versioned`. */
  function VersionedVars(name: string, versions: seq<int>): seq<Value>
  {
    seq(|versions|, i requires 0 <= i < |versions| => Var(Versioned(name, versions[i])))
  }

  /** The phi assignment for one (stored, loaded) pair of a block's phi
      tables: the phi's own version is the target, each merged version an
      argument. */
  function PhiAssignment(d: SsaConst.PhiDef, u: SsaConst.PhiUse): Term
  {
    Phi(Var(Versioned(d.name, d.version)), VersionedVars(d.name, u.versions))
  }

  function Min(a: int, b: int): int
  {
    if a <= b then a else b
  }

  /** The pairs `zip` visits name the same variable on both sides. */
  predicate PhisAligned(stored: seq<SsaConst.PhiDef>, loaded: seq<SsaConst.PhiUse>)
  {
    forall i :: 0 <= i < |stored| && i < |loaded| ==> stored[i].name == loaded[i].name
  }

  function PhiAssignments(stored: seq<SsaConst.PhiDef>, loaded: seq<SsaConst.PhiUse>): (r: seq<Option<Term>>)
    ensures |r| == Min(|stored|, |loaded|)
    ensures forall i :: 0 <= i < |r| ==> r[i] == Some(PhiAssignment(stored[i], loaded[i]))
  {
    seq(Min(|stored|, |loaded|), i requires 0 <= i < Min(|stored|, |loaded|) => Some(PhiAssignment(stored[i], loaded[i])))
  }

  /**
   * `PS_PHI` on one block's phi tables: one phi assignment per pair, as many
   * as the shorter table has; a loaded entry that lacks the stored name is the
   * `KeyError` of the lookup.
   */
  method PsPhi(stored: seq<SsaConst.PhiDef>, loaded: seq<SsaConst.PhiUse>)
    returns (r: Result<seq<Option<Term>>, string>)
    ensures r.Ok? <==> PhisAligned(stored, loaded)
    ensures r.Ok? ==> r.value == PhiAssignments(stored, loaded)
    ensures r.Err? ==> r.error == "KeyError"
  {
    var assignments: seq<Option<Term>> := [];
    var i := 0;
    while i < |stored| && i < |loaded|
      invariant 0 <= i <= Min(|stored|, |loaded|)
      invariant forall k :: 0 <= k < i ==> stored[k].name == loaded[k].name
      invariant |assignments| == i
      invariant forall k :: 0 <= k < i ==> assignments[k] == Some(PhiAssignment(stored[k], loaded[k]))
    {
      var varName := stored[i].name;
      if loaded[i].name != varName {
        return Err("KeyError");
      }
      var varNr := IntToString(stored[i].version);
      var target := Var(varName + "_" + varNr);
      assignments := assignments + [Some(Phi(target, VersionedVars(varName, loaded[i].versions)))];
      i := i + 1;
    }
    return Ok(assignments);
  }

  /** Phis of distinct definitions assign distinct names, and a phi's
      arguments are distinct exactly when the merged versions are. */
  lemma PhiAssignmentsDistinct(stored: seq<SsaConst.PhiDef>, loaded: seq<SsaConst.PhiUse>)
    requires NoDuplicates(stored)
    ensures var r := PhiAssignments(stored, loaded);
      forall i, j :: 0 <= i < j < |r| ==> r[i].value.target != r[j].value.target
    ensures forall i :: 0 <= i < Min(|stored|, |loaded|) ==>
              (NoDuplicates(PhiAssignment(stored[i], loaded[i]).args) <==> NoDuplicates(loaded[i].versions))
  {
    var r := PhiAssignments(stored, loaded);
    forall i, j | 0 <= i < j < |r| ensures r[i].value.target != r[j].value.target {
      assert stored[i] != stored[j];
      UnversionedVersioned(stored[i].name, stored[i].version);
      UnversionedVersioned(stored[j].name, stored[j].version);
    }
    forall i | 0 <= i < Min(|stored|, |loaded|)
      ensures NoDuplicates(PhiAssignment(stored[i], loaded[i]).args) <==> NoDuplicates(loaded[i].versions)
    {
      var name, vs := stored[i].name, loaded[i].versions;
      var args := VersionedVars(name, vs);
      forall k, l | 0 <= k < l < |vs| ensures args[k] == args[l] <==> vs[k] == vs[l] {
        UnversionedVersioned(name, vs[k]);
        UnversionedVersioned(name, vs[l]);
      }
    }
  }

  // ---------------------------------------------------------------------------
  // Block labels and block assembly (`PS_B_REF`, `PS_B`, `PS_BS`)

  /** A control-flow block as block assembly sees it: its id, the targets of
      its exits in order, and its statements already translated (function
      definitions dropped). */
  datatype CfgBlock = CfgBlock(id: int, exits: seq<int>, stmtTerms: seq<Option<Term>>)

  /** The memo table `block_refs` and the running `block_counter`. */
  class BlockRefs {
    var refs: map<int, string>
    var counter: int

    /** Every block is labelled by its id, and the counter has moved once per
        label created. */
    ghost predicate Valid()
      reads this
    {
      (forall b :: b in refs ==> refs[b] == IntToString(b)) && counter == 1 + |refs.Keys|
    }

    constructor()
      ensures Valid() && refs == map[] && counter == 1
    {
      refs := map[];
      counter := 1;
    }

    /** `PS_B_REF`: the block's label, created on first request and the same
        one on every later request. */
    method Ref(block: int) returns (blockLabel: string)
      requires Valid()
      modifies this
      ensures Valid()
      ensures blockLabel == IntToString(block)
      ensures refs == old(refs)[block := blockLabel]
      ensures counter == old(counter) + (if block in old(refs) then 0 else 1)
    {
      if block in refs {
        blockLabel := refs[block];
        assert refs == refs[block := blockLabel];
        return;
      }
      assert (refs[block := IntToString(block)]).Keys == refs.Keys + {block};
      refs := refs[block := IntToString(block)];
      counter := counter + 1;
      blockLabel := refs[block];
    }
  }

  /** The trailing jump `PS_B` appends: only a block with exactly one exit
      gets one. */
  function ExitGoto(exits: seq<int>): seq<Option<Term>>
  {
    if |exits| == 1 then [Some(Goto(IntToString(exits[0])))] else []
  }

  predicate HasPhiTables(b: CfgBlock, phiStored: map<int, seq<SsaConst.PhiDef>>,
                         phiLoaded: map<int, seq<SsaConst.PhiUse>>)
  {
    b.id in phiStored && b.id in phiLoaded && PhisAligned(phiStored[b.id], phiLoaded[b.id])
  }

  /** The block `PS_B` builds: labelled by its id, its phis first, then its
      statements, then the jump to its only exit if it has exactly one. */
  function AssembledBlock(b: CfgBlock, phiStored: map<int, seq<SsaConst.PhiDef>>,
                          phiLoaded: map<int, seq<SsaConst.PhiUse>>, first: bool): Block
    requires b.id in phiStored && b.id in phiLoaded
  {
    Block(IntToString(b.id), PhiAssignments(phiStored[b.id], phiLoaded[b.id]) + b.stmtTerms + ExitGoto(b.exits), first)
  }

  /** The labels block assembly creates for `b`: its own and, with exactly one
      exit, that exit's. */
  function RefKeys(b: CfgBlock): set<int>
  {
    {b.id} + (if |b.exits| == 1 then {b.exits[0]} else {})
  }

  /** The labels assembling the first `n` of `blocks` creates: those some
      block among them creates, its own or its one exit's. */
  ghost function RefKeysUpTo(blocks: seq<CfgBlock>, n: nat): set<int>
    requires n <= |blocks|
  {
    set k, x | 0 <= k < n && x in RefKeys(blocks[k]) :: x
  }

  /**
   * Statement translation yields no bare jump, so a block ends with a jump
   * exactly when it has one exit, and that jump goes to the exit.
   */
  lemma AssembledGotoIffOneExit(b: CfgBlock, phiStored: map<int, seq<SsaConst.PhiDef>>,
                                phiLoaded: map<int, seq<SsaConst.PhiUse>>, first: bool)
    requires b.id in phiStored && b.id in phiLoaded
    requires forall l :: Some(Goto(l)) !in b.stmtTerms
    ensures var terms := AssembledBlock(b, phiStored, phiLoaded, first).terms;
      ((exists l :: Some(Goto(l)) in terms) <==> |b.exits| == 1) &&
      (|b.exits| == 1 ==> terms[|terms| - 1] == Some(Goto(IntToString(b.exits[0]))))
  {
    var phis := PhiAssignments(phiStored[b.id], phiLoaded[b.id]);
    var terms := AssembledBlock(b, phiStored, phiLoaded, first).terms;
    forall k | 0 <= k < |phis| + |b.stmtTerms| ensures !(terms[k].Some? && terms[k].value.Goto?) {
      if k < |phis| {
        assert terms[k] == phis[k];
      } else {
        assert terms[k] == b.stmtTerms[k - |phis|];
        assert b.stmtTerms[k - |phis|] in b.stmtTerms;
      }
    }
    if |b.exits| != 1 {
      assert terms == phis + b.stmtTerms;
    }
  }

  /** `PS_B`. */
  method PsB(refs: BlockRefs, b: CfgBlock, phiStored: map<int, seq<SsaConst.PhiDef>>,
             phiLoaded: map<int, seq<SsaConst.PhiUse>>, first: bool)
    returns (r: Result<Block, string>)
    requires refs.Valid()
    modifies refs
    ensures refs.Valid()
    ensures r.Ok? <==> HasPhiTables(b, phiStored, phiLoaded)
    ensures r.Ok? ==> r.value == AssembledBlock(b, phiStored, phiLoaded, first)
    ensures r.Ok? ==> refs.refs.Keys == old(refs.refs.Keys) + RefKeys(b)
    ensures r.Err? ==> refs.refs.Keys == old(refs.refs.Keys) + {b.id} && r.error == "KeyError"
  {
    var blockLabel := refs.Ref(b.id);
    if b.id !in phiStored || b.id !in phiLoaded {
      return Err("KeyError");
    }
    var phis := PsPhi(phiStored[b.id], phiLoaded[b.id]);
    if phis.Err? {
      return Err(phis.error);
    }
    var terms := phis.value + b.stmtTerms;
    if |b.exits| == 1 {
      var target := refs.Ref(b.exits[0]);
      terms := terms + [Some(Goto(target))];
    }
    return Ok(Block(blockLabel, terms, first));
  }

  /** The first `i` of `blocks` have their phi tables and have been assembled
      into `parsed`, in order. */
  ghost predicate AssembledUpTo(blocks: seq<CfgBlock>, phiStored: map<int, seq<SsaConst.PhiDef>>,
                                phiLoaded: map<int, seq<SsaConst.PhiUse>>, parsed: seq<Block>, i: nat)
  {
    i <= |blocks| && |parsed| == i &&
    forall k :: 0 <= k < i ==>
      HasPhiTables(blocks[k], phiStored, phiLoaded) &&
      parsed[k] == AssembledBlock(blocks[k], phiStored, phiLoaded, k == 0)
  }

  lemma AssembledStep(blocks: seq<CfgBlock>, phiStored: map<int, seq<SsaConst.PhiDef>>,
                      phiLoaded: map<int, seq<SsaConst.PhiUse>>, parsed: seq<Block>, i: nat)
    requires i < |blocks| && AssembledUpTo(blocks, phiStored, phiLoaded, parsed, i)
    requires HasPhiTables(blocks[i], phiStored, phiLoaded)
    ensures AssembledUpTo(blocks, phiStored, phiLoaded,
                          parsed + [AssembledBlock(blocks[i], phiStored, phiLoaded, i == 0)], i + 1)
  {
  }

  /** `keys` holds exactly `keys0` and the labels of the first `n` blocks. */
  ghost predicate KeysGrown(keys0: set<int>, keys: set<int>, blocks: seq<CfgBlock>, n: nat)
    requires n <= |blocks|
  {
    forall x :: x in keys <==> x in keys0 || x in RefKeysUpTo(blocks, n)
  }

  lemma KeysStep(blocks: seq<CfgBlock>, i: nat, keys0: set<int>, before: set<int>, after: set<int>)
    requires i < |blocks| && KeysGrown(keys0, before, blocks, i)
    requires after == before + RefKeys(blocks[i])
    ensures KeysGrown(keys0, after, blocks, i + 1)
  {
    forall x | x in RefKeys(blocks[i]) ensures x in RefKeysUpTo(blocks, i + 1) {
      assert 0 <= i < i + 1 && x in RefKeys(blocks[i]);
    }
  }

  lemma KeysGrownSet(blocks: seq<CfgBlock>, n: nat, keys0: set<int>, keys: set<int>)
    requires n <= |blocks| && KeysGrown(keys0, keys, blocks, n)
    ensures keys == keys0 + RefKeysUpTo(blocks, n)
  {
    assert forall x :: x in keys <==> x in keys0 + RefKeysUpTo(blocks, n);
  }

  /** Assembly stopped at block `i`, the first without phi tables. */
  lemma AssemblyStops(blocks: seq<CfgBlock>, phiStored: map<int, seq<SsaConst.PhiDef>>,
                      phiLoaded: map<int, seq<SsaConst.PhiUse>>, parsed: seq<Block>, i: nat,
                      keys0: set<int>, before: set<int>, keys: set<int>)
    requires i < |blocks| && AssembledUpTo(blocks, phiStored, phiLoaded, parsed, i)
    requires KeysGrown(keys0, before, blocks, i) && keys == before + {blocks[i].id}
    requires !HasPhiTables(blocks[i], phiStored, phiLoaded)
    ensures !forall j :: 0 <= j < |blocks| ==> HasPhiTables(blocks[j], phiStored, phiLoaded)
    ensures exists j :: 0 <= j < |blocks| && !HasPhiTables(blocks[j], phiStored, phiLoaded) &&
              (forall k :: 0 <= k < j ==> HasPhiTables(blocks[k], phiStored, phiLoaded)) &&
              keys == keys0 + RefKeysUpTo(blocks, j) + {blocks[j].id}
  {
    KeysGrownSet(blocks, i, keys0, before);
  }

  /** Assembly ran through all of `blocks`. */
  lemma AssemblyFinishes(blocks: seq<CfgBlock>, phiStored: map<int, seq<SsaConst.PhiDef>>,
                         phiLoaded: map<int, seq<SsaConst.PhiUse>>, parsed: seq<Block>,
                         keys0: set<int>, keys: set<int>)
    requires AssembledUpTo(blocks, phiStored, phiLoaded, parsed, |blocks|)
    requires KeysGrown(keys0, keys, blocks, |blocks|)
    ensures forall j :: 0 <= j < |blocks| ==> HasPhiTables(blocks[j], phiStored, phiLoaded)
    ensures keys == keys0 + RefKeysUpTo(blocks, |blocks|)
    ensures |parsed| == |blocks|
    ensures forall j :: 0 <= j < |blocks| ==> parsed[j] == AssembledBlock(blocks[j], phiStored, phiLoaded, j == 0)
    ensures forall j :: 0 <= j < |parsed| ==> (parsed[j].firstInProc <==> j == 0)
  {
    KeysGrownSet(blocks, |blocks|, keys0, keys);
  }

  /** `PS_BS`: the blocks in order, only the first marked as opening its
      procedure; a block without phi tables stops the assembly. */
  method PsBs(refs: BlockRefs, blocks: seq<CfgBlock>, phiStored: map<int, seq<SsaConst.PhiDef>>,
              phiLoaded: map<int, seq<SsaConst.PhiUse>>)
    returns (r: Result<seq<Block>, string>)
    requires refs.Valid()
    modifies refs
    ensures refs.Valid()
    ensures r.Ok? <==> forall i :: 0 <= i < |blocks| ==> HasPhiTables(blocks[i], phiStored, phiLoaded)
    ensures r.Ok? ==> refs.refs.Keys == old(refs.refs.Keys) + RefKeysUpTo(blocks, |blocks|)
    ensures r.Err? ==> r.error == "KeyError"
    ensures r.Err? ==>
              exists i :: 0 <= i < |blocks| && !HasPhiTables(blocks[i], phiStored, phiLoaded) &&
                (forall k :: 0 <= k < i ==> HasPhiTables(blocks[k], phiStored, phiLoaded)) &&
                refs.refs.Keys == old(refs.refs.Keys) + RefKeysUpTo(blocks, i) + {blocks[i].id}
    ensures r.Ok? ==> |r.value| == |blocks|
    ensures r.Ok? ==>
              forall i :: 0 <= i < |blocks| ==> r.value[i] == AssembledBlock(blocks[i], phiStored, phiLoaded, i == 0)
    ensures r.Ok? ==> forall i :: 0 <= i < |r.value| ==> (r.value[i].firstInProc <==> i == 0)
  {
    ghost var keys0 := refs.refs.Keys;
    var parsed: seq<Block> := [];
    var i := 0;
    while i < |blocks|
      invariant 0 <= i <= |blocks|
      invariant refs.Valid()
      invariant KeysGrown(keys0, refs.refs.Keys, blocks, i)
      invariant AssembledUpTo(blocks, phiStored, phiLoaded, parsed, i)
    {
      ghost var before := refs.refs.Keys;
      var b := PsB(refs, blocks[i], phiStored, phiLoaded, i == 0);
      if b.Err? {
        AssemblyStops(blocks, phiStored, phiLoaded, parsed, i, keys0, before, refs.refs.Keys);
        return Err(b.error);
      }
      KeysStep(blocks, i, keys0, before, refs.refs.Keys);
      AssembledStep(blocks, phiStored, phiLoaded, parsed, i);
      parsed := parsed + [b.value];
      i := i + 1;
    }
    AssemblyFinishes(blocks, phiStored, phiLoaded, parsed, keys0, refs.refs.Keys);
    return Ok(parsed);
  }

  // ---------------------------------------------------------------------------
  // Ordering a procedure's blocks (the sort in `SSA_P.__init__`)

  /** Python's `<=` on strings: code point by code point, a proper prefix
      first. */
  predicate StrLe(a: string, b: string)
  {
    if a == [] then true
    else if b == [] then false
    else if a[0] != b[0] then a[0] < b[0]
    else StrLe(a[1..], b[1..])
  }

  lemma {:induction false} StrLeTotal(a: string, b: string)
    ensures StrLe(a, b) || StrLe(b, a)
  {
    if a != [] && b != [] && a[0] == b[0] {
      StrLeTotal(a[1..], b[1..]);
    }
  }

  lemma {:induction false} StrLeTransitive(a: string, b: string, c: string)
    requires StrLe(a, b) && StrLe(b, c)
    ensures StrLe(a, c)
  {
    if a != [] && b != [] && c != [] && a[0] == b[0] && b[0] == c[0] {
      StrLeTransitive(a[1..], b[1..], c[1..]);
    }
  }

  lemma {:induction false} StrLeAntisymmetric(a: string, b: string)
    requires StrLe(a, b) && StrLe(b, a)
    ensures a == b
  {
    if a != [] && b != [] {
      StrLeAntisymmetric(a[1..], b[1..]);
      assert a == [a[0]] + a[1..] && b == [b[0]] + b[1..];
    }
  }

  predicate LabelsSorted(bs: seq<Block>)
  {
    forall i, j :: 0 <= i < j < |bs| ==> StrLe(bs[i].labelText, bs[j].labelText)
  }

  /** The sort of `SSA_P.__init__`, in place: the blocks end up ordered by
      label and are the same blocks as before. */
  method SortBlocks(a: array<Block>)
    modifies a
    ensures LabelsSorted(a[..])
    ensures multiset(a[..]) == multiset(old(a[..]))
  {
    var i := 0;
    while i < a.Length
      invariant 0 <= i <= a.Length
      invariant LabelsSorted(a[..i])
      invariant multiset(a[..]) == multiset(old(a[..]))
    {
      InsertBlock(a, i);
      i := i + 1;
    }
    assert a[..a.Length] == a[..];
  }

  /** One insertion step: `a[i]` moves left past every block with a larger
      label. */
  method InsertBlock(a: array<Block>, i: nat)
    requires i < a.Length
    requires LabelsSorted(a[..i])
    modifies a
    ensures LabelsSorted(a[..i + 1])
    ensures multiset(a[..]) == multiset(old(a[..]))
  {
    var j := i;
    assert Inserting(a[..], i, j) by {
      assert forall k :: 0 <= k < i ==> a[..i][k] == a[k];
    }
    while j > 0 && !StrLe(a[j - 1].labelText, a[j].labelText)
      invariant 0 <= j <= i
      invariant multiset(a[..]) == multiset(old(a[..]))
      invariant Inserting(a[..], i, j)
    {
      ghost var s := a[..];
      InsertingSwap(s, i, j);
      a[j - 1], a[j] := a[j], a[j - 1];
      assert a[..] == s[j - 1 := s[j]][j := s[j - 1]];
      j := j - 1;
    }
    InsertingDone(a[..], i, j);
  }

  /** Midway through inserting `s[j]`: apart from `s[j]`, the first `i + 1`
      blocks are in order, and `s[j]` is not above any block to its right. */
  ghost predicate Inserting(s: seq<Block>, i: nat, j: nat)
    requires j <= i < |s|
  {
    (forall k, l :: 0 <= k < l <= i && k != j && l != j ==> StrLe(s[k].labelText, s[l].labelText)) &&
    (forall l :: j < l <= i ==> StrLe(s[j].labelText, s[l].labelText))
  }

  lemma InsertingSwap(s: seq<Block>, i: nat, j: nat)
    requires 0 < j <= i < |s|
    requires Inserting(s, i, j)
    requires !StrLe(s[j - 1].labelText, s[j].labelText)
    ensures Inserting(s[j - 1 := s[j]][j := s[j - 1]], i, j - 1)
    ensures multiset(s[j - 1 := s[j]][j := s[j - 1]]) == multiset(s)
  {
    var t := s[j - 1 := s[j]][j := s[j - 1]];
    StrLeTotal(s[j - 1].labelText, s[j].labelText);
    forall l | j - 1 < l <= i ensures StrLe(t[j - 1].labelText, t[l].labelText) {
      if l > j {
        assert t[l] == s[l];
      }
    }
    assert t == s[..j - 1] + [s[j], s[j - 1]] + s[j + 1..];
    assert s == s[..j - 1] + [s[j - 1], s[j]] + s[j + 1..];
  }

  lemma InsertingDone(s: seq<Block>, i: nat, j: nat)
    requires j <= i < |s|
    requires Inserting(s, i, j)
    requires j == 0 || StrLe(s[j - 1].labelText, s[j].labelText)
    ensures LabelsSorted(s[..i + 1])
  {
    forall k, l | 0 <= k < l <= i ensures StrLe(s[k].labelText, s[l].labelText) {
      if l == j && k < j - 1 {
        StrLeTransitive(s[k].labelText, s[j - 1].labelText, s[j].labelText);
      }
    }
  }

  /** `SSA_P(name, blocks)`: the procedure keeps its blocks ordered by label. */
  method MakeProc(name: string, blocks: seq<Block>) returns (p: Proc)
    ensures p.name == name
    ensures LabelsSorted(p.blocks)
    ensures multiset(p.blocks) == multiset(blocks)
  {
    var a := new Block[|blocks|](i requires 0 <= i < |blocks| => blocks[i]);
    assert a[..] == blocks;
    SortBlocks(a);
    p := Proc(name, a[..]);
  }
}
