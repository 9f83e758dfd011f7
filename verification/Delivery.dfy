/** What a caller of the generated function gets, in the terms its author wrote: the outputs
    as declared, the resources in the promised order, and the placeholders filled. */
module Delivery {
  import opened Common
  import opened Blueprint
  import opened Decode
  import opened Codegen
  import opened CodegenProofs
  import opened CodegenTexts
  import opened CodegenMeaning
  import opened CodegenTheorem
  import opened Readings
  import opened Acceptance
  import Splice

  // -------------------------------------------------------------------- outputs

  /** A returned value is an attribute of the resource its output's target is written for. */
  ghost predicate Delivers(rs: seq<DecodedResource>, o: Output, v: Value) {
    exists i, path :: TargetWritten(rs, o.target, i, path) && v == VHandle(rs[i].Address(), path)
  }

  lemma OutputDelivered(rs: seq<DecodedResource>, o: Output, d: DecodedOutput)
    requires OutputIs(rs, o, d)
    ensures Delivers(rs, o, VHandle(d.target.address, d.target.path))
  {
  }

  lemma OutputsDelivered(bp: Decoded, outputs: seq<Output>, args: Args, h: Host)
    requires OutputsAre(bp.resources, outputs, bp.outputs) && bp.forEach.None?
    ensures |Returned(bp, args, h)| == |outputs|
    ensures forall k | 0 <= k < |outputs| :: Delivers(bp.resources, outputs[k], Returned(bp, args, h)[k])
  {
    forall k | 0 <= k < |outputs| ensures Delivers(bp.resources, outputs[k], Returned(bp, args, h)[k]) {
      OutputDelivered(bp.resources, outputs[k], bp.outputs[k]);
    }
  }

  lemma LoopOf(draft: Draft, params: seq<Param>, outputs: seq<Output>, bp: Decoded)
    requires DecodeBlueprint(draft, params, outputs) == Ok(bp)
    ensures bp.forEach.Some? <==> exists ri :: ri in draft.resources && ri.forEach != ""
  {
    AcceptedParts(draft, params, outputs, bp);
    if bp.forEach.Some? {
      var k :| 0 <= k < |bp.resources| && bp.resources[k] == bp.forEach.value;
      assert draft.resources[k] in draft.resources;
    }
    if ri :| ri in draft.resources && ri.forEach != "" {
      var k :| 0 <= k < |draft.resources| && draft.resources[k] == ri;
      assert bp.resources[k] in bp.resources;
    }
  }

  /** The outputs in declared order, or what the loop made. */
  ghost predicate ReturnsDeclared(draft: Draft, outputs: seq<Output>, bp: Decoded, args: Args, h: Host,
                                  returned: seq<Value>)
  {
    if exists ri :: ri in draft.resources && ri.forEach != "" then
      && bp.forEach.Some?
      && exists made :: returned == [VList(Handles(made))] && MadeAsDeclared(bp, args, h, bp.forEach.value, made)
    else
      |returned| == |outputs| && forall k | 0 <= k < |outputs| :: Delivers(bp.resources, outputs[k], returned[k])
  }

  /** Running the emitted code of an accepted draft returns its outputs in the order they
      are declared, each an attribute of the one resource its target names; or, where a
      resource is iterated, the list of what the loop made. */
  lemma RunReturnsDeclared(draft: Draft, params: seq<Param>, outputs: seq<Output>, c: Ctx, f: Frame, args: Args,
                           h: Host)
    requires DecodeBlueprint(draft, params, outputs) == Ok(c.bp) && Compile(c).Ok?
    requires Apart(c.names) && PlainNames(c.names) && ValidBlueprint(c.bp)
    requires CapturesBound(c.bp) && FaithfulBlueprint(c)
    requires ArgumentsFit(c, params, args) && ParamsIn(c, f, args)
    ensures var r := RunProgram(Compile(c).value, f, h);
      r.Ok? && ReturnsDeclared(draft, outputs, c.bp, args, h, r.value.returned)
  {
    CompiledCodeMeansBlueprint(draft, params, outputs, c, f, args, h);
    LoopOf(draft, params, outputs, c.bp);
    if c.bp.forEach.Some? {
      InstancesAreDeclared(c.bp, args, h, c.bp.forEach.value);
    } else {
      AcceptedMeans(draft, params, outputs);
      OutputsDelivered(c.bp, outputs, args, h);
    }
  }

  // --------------------------------------------------------------- placeholders

  lemma SliceIs(s: string, i: nat, j: nat)
    requires i <= j <= |s|
    ensures Splice.Slice(s, i, j) == s[i..j]
  {
  }

  /** What a text that is no JSON means: itself where it holds no placeholder; the argument
      itself, of whatever type, where it is a placeholder and nothing else; and otherwise
      the text around it with the argument printed between. */
  lemma TextMeans(args: Args, h: Host, t: Text)
    requires !IsEmbedded(t)
    ensures t.tokens == [] ==> DenoteString(args, h, t) == VText(t.chars)
    ensures |t.tokens| == 1 && t.tokens[0].start <= t.tokens[0].end <= |t.chars| ==>
      var p := t.tokens[0];
      var v := if p.name in args then args[p.name] else VNull;
      var filled := if p.op == "" then v else h.arith(v, p.op, p.literal);
      DenoteString(args, h, t)
      == if p.start == 0 && p.end == |t.chars| then filled
         else VText(t.chars[..p.start] + (if filled.VText? then filled.s else h.show(filled)) + t.chars[p.end..])
  {
    if t.tokens == [] {
      SliceIs(t.chars, 0, |t.chars|);
      assert t.chars[0..|t.chars|] == t.chars;
    } else if |t.tokens| == 1 && t.tokens[0].start <= t.tokens[0].end <= |t.chars| {
      var p := t.tokens[0];
      SliceIs(t.chars, 0, p.start);
      SliceIs(t.chars, p.end, |t.chars|);
      assert t.tokens[1..] == [];
      assert t.chars[0..p.start] == t.chars[..p.start] && t.chars[p.end..|t.chars|] == t.chars[p.end..];
      assert DenoteTemplate(args, h, t.chars, t.tokens, 0)
          == t.chars[..p.start] + Show(h, DenoteToken(args, h, p)) + DenoteTemplate(args, h, t.chars, [], p.end);
    }
  }
}
