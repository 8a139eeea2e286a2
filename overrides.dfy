/**
 * Definition lookup along the chain of compilation contexts (`findDefinition`)
 * and the way a block merges its own code with the definition it finds.
 */
module Overrides {
  import opened Templates

  /** The value of a compilation context: the file it belongs to, the
      definitions made in it so far and the context that encloses it. */
  datatype Scope = Scope(file: string, defs: Defs, parent: Option<Scope>)

  /** The definition maps of a scope and its enclosing scopes, innermost first. */
  function Chain(sc: Scope): seq<Defs>
  {
    [sc.defs] + match sc.parent
      case None => []
      case Some(p) => Chain(p)
  }

  /** `findDefinition`: the definition stored under `name` in the scope or,
      failing that, in the nearest enclosing scope that has one. */
  function FindDefinition(name: string, sc: Scope): Option<Definition>
  {
    if name in sc.defs then Some(sc.defs[name])
    else match sc.parent
      case None => None
      case Some(p) => FindDefinition(name, p)
  }

  /** The definition found is the one of the innermost scope that defines the
      name; nothing is found exactly when no scope of the chain defines it. */
  lemma {:induction false} FindDefinitionNearest(name: string, sc: Scope)
    ensures FindDefinition(name, sc).None? <==>
      forall k :: 0 <= k < |Chain(sc)| ==> name !in Chain(sc)[k]
    ensures FindDefinition(name, sc).Some? ==>
      exists k :: 0 <= k < |Chain(sc)| && name in Chain(sc)[k] &&
        FindDefinition(name, sc).value == Chain(sc)[k][name] &&
        forall j :: 0 <= j < k ==> name !in Chain(sc)[j]
  {
    var c := Chain(sc);
    if name in sc.defs {
      assert name in c[0];
    } else {
      match sc.parent
      case None =>
      case Some(p) =>
        FindDefinitionNearest(name, p);
        ChainShift(name, sc, p);
        if FindDefinition(name, p).Some? {
          var cp := Chain(p);
          var k :| 0 <= k < |cp| && name in cp[k] && FindDefinition(name, p).value == cp[k][name] &&
            forall j :: 0 <= j < k ==> name !in cp[j];
          NearestShift(name, c, cp, k);
        }
    }
  }

  /** The chain of a scope is its own map followed by its parent's chain. */
  lemma ChainShift(name: string, sc: Scope, p: Scope)
    requires sc.parent == Some(p) && name !in sc.defs
    ensures |Chain(sc)| == |Chain(p)| + 1
    ensures (forall k :: 0 <= k < |Chain(sc)| ==> name !in Chain(sc)[k]) <==>
            (forall k :: 0 <= k < |Chain(p)| ==> name !in Chain(p)[k])
  {
    var c := Chain(sc);
    var cp := Chain(p);
    if forall k :: 0 <= k < |cp| ==> name !in cp[k] {
      forall k | 0 <= k < |c| ensures name !in c[k] {
        if k > 0 { assert c[k] == cp[k - 1]; }
      }
    }
    if forall k :: 0 <= k < |c| ==> name !in c[k] {
      forall k | 0 <= k < |cp| ensures name !in cp[k] {
        assert c[k + 1] == cp[k];
      }
    }
  }

  lemma NearestShift(name: string, c: seq<Defs>, cp: seq<Defs>, k: int)
    requires |c| >= 1 && c[1..] == cp && name !in c[0]
    requires 0 <= k < |cp| && name in cp[k] && forall j :: 0 <= j < k ==> name !in cp[j]
    ensures 0 <= k + 1 < |c| && name in c[k + 1] && c[k + 1][name] == cp[k][name]
    ensures forall j :: 0 <= j < k + 1 ==> name !in c[j]
  {
    assert c[k + 1] == cp[k];
    forall j | 0 <= j < k + 1 ensures name !in c[j] {
      if j > 0 { assert c[j] == cp[j - 1]; }
    }
  }

  /** A definition made in the innermost scope shadows every enclosing one. */
  lemma InnermostWins(name: string, d: Definition, sc: Scope)
    ensures FindDefinition(name, sc.(defs := sc.defs[name := d])) == Some(d)
  {
  }

  /** The code a block emits (`_process_block`): its own body when no
      definition targets it; body then definition for `append`; the
      definition alone for `prepend` and for every other mode. */
  function ResolveBlock(found: Option<Definition>, body: Program): (code: Program)
    ensures found.None? ==> code == body
    ensures found.Some? && found.value.mode == Append ==> code == body + found.value.code
    ensures found.Some? && found.value.mode != Append ==> code == found.value.code
  {
    match found
    case None => body
    case Some(d) =>
      match d.mode
      case Append => body + d.code
      case Prepend => d.code
      case Override => d.code
  }

  /** A `prepend` definition discards the block's body just as an override
      does: the two modes emit the same code. */
  lemma PrependActsAsOverride(code: Program, body: Program)
    ensures ResolveBlock(Some(Definition(Prepend, code)), body) ==
            ResolveBlock(Some(Definition(Override, code)), body)
    ensures ResolveBlock(Some(Definition(Prepend, code)), body) == code
  {
  }
}
