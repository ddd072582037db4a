/** Arbitrary histories of Strings, against a model that really counts.

    The model of a program with n String variables is just the sequence of blocks they refer to: no
    links, no bits, no freeing.  Every operation of the class is one simple update of that sequence. */
module StringHistory {
  import opened CString
  import opened OwnerHeap
  import opened OwnerHeapProperties
  import opened Sequences

  type Model = seq<Block?>

  datatype Command =
    | NewNull
    | NewText(text: string)                 // String(const char*)
    | NewView(text: string)                 // String(std::string_view): may hold NULs
    | NewCopy(j: nat)
    | NewMove(j: nat)
    | SetNull(i: nat)                       // = nullptr
    | SetText(i: nat, text: string)         // = const char*
    | SetOwnText(i: nat, j: nat, offset: nat)  // = a const char* into the text of variable j, or of i itself
    | SetView(i: nat, text: string)
    | SetCopy(i: nat, j: nat)
    | SetMove(i: nat, j: nat)
    | SwapVars(i: nat, j: nat)
    | ResetVar(i: nat)
    | DestroyVar(i: nat)

  /** The variables a command names exist, and a pointer into a text points into one. */
  ghost predicate Applicable(m: Model, c: Command) {
    match c
    case NewNull => true
    case NewText(_) => true
    case NewView(_) => true
    case NewCopy(j) => j < |m|
    case NewMove(j) => j < |m|
    case SetNull(i) => i < |m|
    case SetText(i, _) => i < |m|
    case SetOwnText(i, j, offset) => i < |m| && j < |m| && m[j] != null && offset < |m[j].data|
    case SetView(i, _) => i < |m|
    case SetCopy(i, j) => i < |m| && j < |m|
    case SetMove(i, j) => i < |m| && j < |m|
    case SwapVars(i, j) => i < |m| && j < |m|
    case ResetVar(i) => i < |m|
    case DestroyVar(i) => i < |m|
  }

  predicate Allocates(c: Command) {
    c.NewText? || c.NewView? || c.SetText? || c.SetOwnText? || c.SetView?
  }

  /** The text of the block a command makes. */
  ghost function TextOf(m: Model, c: Command): string
    requires Applicable(m, c) && Allocates(c)
  {
    match c
    case NewText(text) => CStr(text)
    case NewView(text) => text
    case SetText(_, text) => CStr(text)
    case SetOwnText(_, j, offset) => CStr(m[j].data[offset..])
    case SetView(_, text) => text
  }

  /** One command; `made` is the block it makes, if any. */
  ghost function ModelStep(m: Model, c: Command, made: Block?): Model {
    if !Applicable(m, c) then m
    else
      match c
      case NewNull => m + [null]
      case NewText(_) => m + [made]
      case NewView(_) => m + [made]
      case NewCopy(j) => m + [m[j]]
      case NewMove(j) => m[j := null] + [m[j]]
      case SetNull(i) => m[i := null]
      case SetText(i, _) => m[i := made]
      case SetOwnText(i, _, _) => m[i := made]
      case SetView(i, _) => m[i := made]
      case SetCopy(i, j) => m[i := m[j]]
      case SetMove(i, j) => if i == j then m else m[i := m[j]][j := null]
      case SwapVars(i, j) => m[i := m[j]][j := m[i]]
      case ResetVar(i) => m[i := null]
      case DestroyVar(i) => m[..i] + m[i + 1..]
  }

  ghost function ModelRun(cs: seq<Command>, made: seq<Block?>): Model
    requires |cs| == |made|
  {
    if cs == [] then []
    else ModelStep(ModelRun(cs[..|cs| - 1], made[..|cs| - 1]), cs[|cs| - 1], made[|cs| - 1])
  }

  /** The heap h holds exactly the variables `vars`, and they refer to the blocks of the model. */
  ghost predicate Represents(h: Heap, vars: seq<String>, m: Model)
    reads h, vars
  {
    && Distinct(vars)
    && h.strings == SetOf(vars)
    && |vars| == |m|
    && forall i :: 0 <= i < |vars| ==> vars[i].block == m[i]
  }

  /** What a program can see of one variable agrees with real counting in the model. */
  lemma BitCounts(h: Heap, vars: seq<String>, m: Model, i: nat)
    requires h.Valid() && Represents(h, vars, m) && i < |m|
    ensures Unique(vars[i]) <==> m[i] != null && forall j :: 0 <= j < |m| && j != i ==> m[j] != m[i]
  {
    UniqueIffSoleOwner(h, vars[i]);
    if m[i] != null {
      if Unique(vars[i]) {
        forall j | 0 <= j < |m| && j != i ensures m[j] != m[i] {
          assert vars[j] in h.strings;
        }
      } else {
        var t :| t in h.strings && t.block == vars[i].block && t != vars[i];
        var j :| 0 <= j < |vars| && vars[j] == t;
        assert m[j] == m[i];
      }
    }
  }

  lemma FreedCounts(h: Heap, vars: seq<String>, m: Model, b: Block)
    requires h.Valid() && h.NoOrphans() && Represents(h, vars, m) && b in h.created
    ensures b.freed <==> b !in m
  {
    FreedIffUnowned(h, b);
    if b in m {
      var i :| 0 <= i < |m| && m[i] == b;
      assert vars[i] in h.strings;
    }
    if exists s :: s in h.strings && s.block == b {
      var s :| s in h.strings && s.block == b;
      var i :| 0 <= i < |vars| && vars[i] == s;
      assert m[i] == b;
    }
  }

  /** The block a step makes is new, and holds the text the model says. */
  ghost predicate MadeOk(m: Model, c: Command, made: Block?) {
    if Applicable(m, c) && Allocates(c) then made != null && made.data == TextOf(m, c) + "\0" else made == null
  }

  /** Variable i has a block that no other variable has. */
  ghost predicate Alone(vars: seq<String>, i: nat)
    requires i < |vars|
    reads vars
  {
    vars[i].block != null && forall j :: 0 <= j < |vars| && j != i ==> vars[j].block != vars[i].block
  }

  lemma Observed(h: Heap, vars: seq<String>, m: Model)
    requires h.Valid() && h.NoOrphans() && Represents(h, vars, m)
    ensures forall i :: 0 <= i < |vars| ==>
      (Unique(vars[i]) <==> Alone(vars, i))
    ensures forall b :: b in h.created ==> (b.freed <==> b !in m)
  {
    forall i | 0 <= i < |vars|
      ensures Unique(vars[i]) <==> Alone(vars, i)
    {
      BitCounts(h, vars, m, i);
    }
    forall b | b in h.created ensures b.freed <==> b !in m {
      FreedCounts(h, vars, m, b);
    }
  }

  // ----- Executing commands

  lemma RepresentsPushed(h: Heap, vars: seq<String>, m: Model, v: String, b: Block?)
    requires |vars| == |m| && Distinct(vars) && v !in vars && v.block == b
    requires h.strings == SetOf(vars) + {v}
    requires forall i :: 0 <= i < |vars| ==> vars[i].block == m[i]
    ensures Represents(h, vars + [v], m + [b])
  {
    assert SetOf(vars + [v]) == SetOf(vars) + {v};
  }

  method Create(ghost h: Heap, vars: seq<String>, c: Command, ghost m: Model)
      returns (after: seq<String>, ghost made: Block?)
    requires h.Valid() && h.NoOrphans() && Represents(h, vars, m) && Applicable(m, c)
    requires c.NewNull? || c.NewText? || c.NewView?
    modifies h, h.strings, h.created
    ensures h.Valid() && h.NoOrphans() && old(h.created) <= h.created
    ensures Represents(h, after, ModelStep(m, c, made))
    ensures MadeOk(m, c, made) && (made != null ==> fresh(made) && made in h.created)
    ensures fresh(h.strings - old(h.strings)) && fresh(h.created - old(h.created))
  {
    var v: String;
    if c.NewNull? {
      v := new String.Default(h);
    } else if c.NewText? {
      v := new String.FromText(h, Outside(c.text));
    } else {
      v := new String.FromView(h, Outside(c.text), |c.text|);
    }
    made := v.block;
    after := vars + [v];
    RepresentsPushed(h, vars, m, v, v.block);
  }

  method CreateFrom(ghost h: Heap, vars: seq<String>, c: Command, ghost m: Model)
      returns (after: seq<String>, ghost made: Block?)
    requires h.Valid() && h.NoOrphans() && Represents(h, vars, m) && Applicable(m, c)
    requires c.NewCopy? || c.NewMove?
    modifies h, h.strings, h.created
    ensures h.Valid() && h.NoOrphans() && old(h.created) <= h.created
    ensures Represents(h, after, ModelStep(m, c, made))
    ensures MadeOk(m, c, made) && (made != null ==> fresh(made) && made in h.created)
    ensures fresh(h.strings - old(h.strings)) && fresh(h.created - old(h.created))
  {
    made := null;
    var v: String;
    ghost var owners := h.owners;
    var source := vars[c.j];
    assert h.StringOk(source);
    if c.NewCopy? {
      v := new String.Copy(h, source);
      StepsLeaveNoOrphan(owners, source.block, v, v);
      RepresentsPushed(h, vars, m, v, v.block);
    } else {
      v := new String.Move(h, source);
      StepsLeaveNoOrphan(owners, null, v, source);
      RepresentsPushed(h, vars, m[c.j := null], v, v.block);
    }
    after := vars + [v];
  }

  /** Only variable i has been given another block. */
  twostate lemma OneReassigned(new h: Heap, new vars: seq<String>, new m: Model, i: nat)
    requires old(allocated(h)) && old(allocated(vars)) && old(allocated(m)) && old(Represents(h, vars, m)) && i < |m|
    requires h.strings == old(h.strings)
    requires forall x :: x in h.strings && x != vars[i] ==> x.block == old(x.block)
    ensures Represents(h, vars, m[i := vars[i].block])
  {
    forall k | 0 <= k < |vars| ensures vars[k].block == m[i := vars[i].block][k] {
      assert vars[k] in h.strings && (k != i ==> vars[k] != vars[i]);
    }
  }

  method AssignText(ghost h: Heap, vars: seq<String>, c: Command, ghost m: Model) returns (ghost made: Block?)
    requires h.Valid() && h.NoOrphans() && Represents(h, vars, m) && Applicable(m, c) && c.SetText?
    modifies h, h.strings, h.created
    ensures h.Valid() && h.NoOrphans() && old(h.created) <= h.created
    ensures Represents(h, vars, ModelStep(m, c, made))
    ensures MadeOk(m, c, made) && (made != null ==> fresh(made) && made in h.created)
    ensures fresh(h.strings - old(h.strings)) && fresh(h.created - old(h.created))
  {
    var v := vars[c.i];
    assert h.StringOk(v);
    StepsLeaveNoOrphan(h.owners, v.block, v, v);
    v.AssignText(h, Outside(c.text));
    made := v.block;
    OneReassigned(h, vars, m, c.i);
  }

  method AssignView(ghost h: Heap, vars: seq<String>, c: Command, ghost m: Model) returns (ghost made: Block?)
    requires h.Valid() && h.NoOrphans() && Represents(h, vars, m) && Applicable(m, c) && c.SetView?
    modifies h, h.strings, h.created
    ensures h.Valid() && h.NoOrphans() && old(h.created) <= h.created
    ensures Represents(h, vars, ModelStep(m, c, made))
    ensures MadeOk(m, c, made) && (made != null ==> fresh(made) && made in h.created)
    ensures fresh(h.strings - old(h.strings)) && fresh(h.created - old(h.created))
  {
    var v := vars[c.i];
    assert h.StringOk(v);
    StepsLeaveNoOrphan(h.owners, v.block, v, v);
    assert c.text[..|c.text|] == c.text;
    v.AssignView(h, Outside(c.text), |c.text|);
    made := v.block;
    OneReassigned(h, vars, m, c.i);
  }

  method AssignOwnText(ghost h: Heap, vars: seq<String>, c: Command, ghost m: Model) returns (ghost made: Block?)
    requires h.Valid() && h.NoOrphans() && Represents(h, vars, m) && Applicable(m, c) && c.SetOwnText?
    modifies h, h.strings, h.created
    ensures h.Valid() && h.NoOrphans() && old(h.created) <= h.created
    ensures Represents(h, vars, ModelStep(m, c, made))
    ensures MadeOk(m, c, made) && (made != null ==> fresh(made) && made in h.created)
    ensures fresh(h.strings - old(h.strings)) && fresh(h.created - old(h.created))
  {
    var v := vars[c.i];
    var b := vars[c.j].block;
    assert h.StringOk(v) && h.StringOk(vars[c.j]) && h.BlockOk(b, h.owners[b]);
    StepsLeaveNoOrphan(h.owners, v.block, v, v);
    v.AssignText(h, Inside(b, c.offset));
    made := v.block;
    OneReassigned(h, vars, m, c.i);
  }

  method TransferCopy(ghost h: Heap, vars: seq<String>, c: Command, ghost m: Model)
    requires h.Valid() && h.NoOrphans() && Represents(h, vars, m) && Applicable(m, c) && c.SetCopy?
    modifies h, h.strings, h.created
    ensures h.Valid() && h.NoOrphans() && h.created == old(h.created) && h.strings <= old(h.strings)
    ensures Represents(h, vars, ModelStep(m, c, null))
  {
    var v, w := vars[c.i], vars[c.j];
    ghost var owners, b := h.owners, v.block;
    assert h.StringOk(v) && h.StringOk(w);
    StepsLeaveNoOrphan(owners, b, v, v);
    v.AssignCopy(h, w);
    if b != w.block { StepsLeaveNoOrphan(Detached(owners, b, v), w.block, v, v); }
  }

  method TransferMove(ghost h: Heap, vars: seq<String>, c: Command, ghost m: Model)
    requires h.Valid() && h.NoOrphans() && Represents(h, vars, m) && Applicable(m, c) && c.SetMove?
    modifies h, h.strings, h.created
    ensures h.Valid() && h.NoOrphans() && h.created == old(h.created) && h.strings <= old(h.strings)
    ensures Represents(h, vars, ModelStep(m, c, null))
  {
    var v, w := vars[c.i], vars[c.j];
    assert h.StringOk(v);
    StepsLeaveNoOrphan(h.owners, v.block, v, v);
    StepsLeaveNoOrphan(Detached(h.owners, v.block, v), null, v, w);
    v.AssignMove(h, w);
  }

  method TransferSwap(ghost h: Heap, vars: seq<String>, c: Command, ghost m: Model)
    requires h.Valid() && h.NoOrphans() && Represents(h, vars, m) && Applicable(m, c) && c.SwapVars?
    modifies h, h.strings, h.created
    ensures h.Valid() && h.NoOrphans() && h.created == old(h.created) && h.strings <= old(h.strings)
    ensures Represents(h, vars, ModelStep(m, c, null))
  {
    var v, w := vars[c.i], vars[c.j];
    StepsLeaveNoOrphan(h.owners, null, v, w);
    v.Swap(h, w);
  }

  method ResetOne(ghost h: Heap, vars: seq<String>, c: Command, ghost m: Model)
    requires h.Valid() && h.NoOrphans() && Represents(h, vars, m) && Applicable(m, c) && (c.ResetVar? || c.SetNull?)
    modifies h, h.strings, h.created
    ensures h.Valid() && h.NoOrphans() && h.created == old(h.created) && h.strings <= old(h.strings)
    ensures Represents(h, vars, ModelStep(m, c, null))
  {
    var v := vars[c.i];
    assert h.StringOk(v);
    StepsLeaveNoOrphan(h.owners, v.block, v, v);
    if c.ResetVar? { v.Reset(h); } else { v.AssignText(h, CharPointer.Null); }
  }

  method Drop(ghost h: Heap, vars: seq<String>, c: Command, ghost m: Model) returns (after: seq<String>)
    requires h.Valid() && h.NoOrphans() && Represents(h, vars, m) && Applicable(m, c) && c.DestroyVar?
    modifies h, h.strings, h.created
    ensures h.Valid() && h.NoOrphans() && h.created == old(h.created) && h.strings <= old(h.strings)
    ensures Represents(h, after, ModelStep(m, c, null))
  {
    var v := vars[c.i];
    assert h.StringOk(v);
    StepsLeaveNoOrphan(h.owners, v.block, v, v);
    after := vars[..c.i] + vars[c.i + 1..];
    OneGone(vars, c.i);
    v.Destroy(h);
  }

  method Step(ghost h: Heap, vars: seq<String>, c: Command, ghost m: Model)
      returns (after: seq<String>, ghost made: Block?)
    requires h.Valid() && h.NoOrphans() && Represents(h, vars, m)
    modifies h, h.strings, h.created
    ensures h.Valid() && h.NoOrphans() && old(h.created) <= h.created
    ensures Represents(h, after, ModelStep(m, c, made)) && MadeOk(m, c, made)
    ensures made != null ==> fresh(made) && made in h.created
    ensures fresh(h.strings - old(h.strings)) && fresh(h.created - old(h.created))
  {
    after, made := vars, null;
    if c.NewNull? || c.NewText? || c.NewView? {
      after, made := Create(h, vars, c, m);
    } else if (c.NewCopy? || c.NewMove?) && c.j < |vars| {
      after, made := CreateFrom(h, vars, c, m);
    } else if c.SetText? && c.i < |vars| {
      made := AssignText(h, vars, c, m);
    } else if c.SetView? && c.i < |vars| {
      made := AssignView(h, vars, c, m);
    } else if
      && c.SetOwnText? && c.i < |vars| && c.j < |vars|
      && vars[c.j].block != null && c.offset < |vars[c.j].block.data|
    {
      made := AssignOwnText(h, vars, c, m);
    } else if c.SetCopy? && c.i < |vars| && c.j < |vars| {
      TransferCopy(h, vars, c, m);
    } else if c.SetMove? && c.i < |vars| && c.j < |vars| {
      TransferMove(h, vars, c, m);
    } else if c.SwapVars? && c.i < |vars| && c.j < |vars| {
      TransferSwap(h, vars, c, m);
    } else if (c.ResetVar? || c.SetNull?) && c.i < |vars| {
      ResetOne(h, vars, c, m);
    } else if c.DestroyVar? && c.i < |vars| {
      after := Drop(h, vars, c, m);
    }
  }

  /** `made` lists, command by command, the blocks that executing cs has made: all new, with their texts. */
  ghost predicate MadeBy(cs: seq<Command>, made: seq<Block?>) {
    && |cs| == |made|
    && (cs == [] ||
        var last := |cs| - 1;
        && MadeBy(cs[..last], made[..last])
        && MadeOk(ModelRun(cs[..last], made[..last]), cs[last], made[last])
        && (made[last] != null ==> made[last] !in made[..last]))
  }

  lemma MadeByExtended(cs: seq<Command>, made: seq<Block?>, c: Command, b: Block?)
    requires MadeBy(cs, made) && MadeOk(ModelRun(cs, made), c, b) && (b != null ==> b !in made)
    ensures MadeBy(cs + [c], made + [b])
    ensures ModelRun(cs + [c], made + [b]) == ModelStep(ModelRun(cs, made), c, b)
  {
    assert (cs + [c])[..|cs|] == cs && (made + [b])[..|cs|] == made;
  }

  /** One more command, in step with the model. */
  method ExecuteOne(ghost h: Heap, vars: seq<String>, c: Command, ghost cs: seq<Command>, ghost made: seq<Block?>)
      returns (after: seq<String>, ghost b: Block?)
    requires h.Valid() && h.NoOrphans() && MadeBy(cs, made) && Represents(h, vars, ModelRun(cs, made))
    requires forall x :: x in made && x != null ==> x in h.created
    modifies h, h.strings, h.created
    ensures h.Valid() && h.NoOrphans()
    ensures MadeBy(cs + [c], made + [b]) && Represents(h, after, ModelRun(cs + [c], made + [b]))
    ensures forall x :: x in made + [b] && x != null ==> x in h.created
    ensures fresh(h.strings - old(h.strings)) && fresh(h.created - old(h.created))
  {
    after, b := Step(h, vars, c, ModelRun(cs, made));
    assert b != null ==> b !in made;
    MadeByExtended(cs, made, c, b);
  }

  /** Executing commands keeps step with the model. */
  method Execute(cs: seq<Command>) returns (vars: seq<String>, ghost h: Heap, ghost made: seq<Block?>)
    ensures h.Valid() && h.NoOrphans() && MadeBy(cs, made) && Represents(h, vars, ModelRun(cs, made))
    ensures forall b :: b in made && b != null ==> b in h.created
  {
    h := new Heap();
    vars, made := [], [];
    ghost var done: seq<Command> := [];
    for n := 0 to |cs|
      invariant done == cs[..n]
      invariant h.Valid() && h.NoOrphans() && MadeBy(done, made) && Represents(h, vars, ModelRun(done, made))
      invariant forall b :: b in made && b != null ==> b in h.created
      invariant fresh(h) && fresh(h.strings) && fresh(h.created)
    {
      ghost var b: Block?;
      vars, b := ExecuteOne(h, vars, cs[n], done, made);
      done, made := done + [cs[n]], made + [b];
    }
    assert done == cs;
  }

  /** Main result.  After any sequence of operations on any number of variables: a variable's bit is set
      exactly when the counting model has no second reference to its block, variables share a block
      exactly when the model says so, every block holds the text it was made with, and the freed blocks
      are exactly those the model no longer refers to. */
  method Run(cs: seq<Command>) returns (vars: seq<String>, ghost h: Heap, ghost made: seq<Block?>)
    ensures h.Valid() && h.NoOrphans()
    ensures MadeBy(cs, made) && |vars| == |ModelRun(cs, made)|
    ensures forall i :: 0 <= i < |vars| ==> vars[i].block == ModelRun(cs, made)[i]
    ensures forall i :: 0 <= i < |vars| ==> (Unique(vars[i]) <==> Alone(vars, i))
    ensures forall b :: b in made && b != null ==> (b.freed <==> b !in ModelRun(cs, made))
  {
    vars, h, made := Execute(cs);
    Observed(h, vars, ModelRun(cs, made));
  }
}
