/**
 * The re-entrancy guard. One process-wide flag, `loopProtected`, is raised
 * by `safelySet` for the duration of its block and lowered afterwards, and
 * `protected` runs its block only while the flag is down. Every conformer
 * reads and writes that one flag, whichever object it is.
 *
 * The closures are modelled as blocks: a block performs observable effects,
 * each known by an identity, and may itself call `protected` or `safelySet`
 * on some conformer.
 */
module LoopProtection {

  /** What a closure does, step by step. */
  datatype Block =
    | Effect(id: int)                          // observable work of the closure
    | Protected(owner: int, body: seq<Block>)  // owner.protected { body }
    | SafelySet(owner: int, body: seq<Block>)  // owner.safelySet { body }

  /** Running `blocks` from flag value `flag`: the flag afterwards and the
    * effects performed, in order. */
  function Run(flag: bool, blocks: seq<Block>): (r: (bool, seq<int>))
    decreases blocks, 0
  {
    if |blocks| == 0 then (flag, [])
    else
      var first := Step(flag, blocks[0]);
      var rest := Run(first.0, blocks[1..]);
      (rest.0, first.1 + rest.1)
  }

  /** Running one step. `protected` returns at once when the flag is up;
    * `safelySet` raises the flag, runs its body and lowers the flag. The
    * owner plays no part: the flag is shared. */
  function Step(flag: bool, b: Block): (r: (bool, seq<int>))
    decreases b
  {
    match b
    case Effect(id) => (flag, [id])
    case Protected(_, body) => if flag then (flag, []) else Run(flag, body)
    case SafelySet(_, body) => (false, Run(true, body).1)
  }

  /** No `safelySet` anywhere inside, at any depth. */
  predicate NoSafelySet(blocks: seq<Block>)
    decreases blocks
  {
    forall i :: 0 <= i < |blocks| ==>
      match blocks[i]
      case Effect(_) => true
      case Protected(_, body) => NoSafelySet(body)
      case SafelySet(_, _) => false
  }

  /** The effects of a block that calls neither guard. */
  function Effects(blocks: seq<Block>): seq<int>
  {
    if |blocks| == 0 then []
    else (if blocks[0].Effect? then [blocks[0].id] else []) + Effects(blocks[1..])
  }

  /** Only effects, no call of either guard. */
  predicate Plain(blocks: seq<Block>)
  {
    forall i :: 0 <= i < |blocks| ==> blocks[i].Effect?
  }

  /** Running one sequence after another is running their concatenation. */
  lemma {:induction false} RunAppend(flag: bool, a: seq<Block>, b: seq<Block>)
    ensures Run(flag, a + b) ==
              (Run(Run(flag, a).0, b).0, Run(flag, a).1 + Run(Run(flag, a).0, b).1)
    decreases a
  {
    if |a| == 0 {
      assert a + b == b;
      assert [] + Run(flag, b).1 == Run(flag, b).1;
    } else {
      var first := Step(flag, a[0]);
      assert (a + b)[0] == a[0];
      assert (a + b)[1..] == a[1..] + b;
      RunAppend(first.0, a[1..], b);
      var middle := Run(first.0, a[1..]);
      assert Run(flag, a) == (middle.0, first.1 + middle.1);
      assert first.1 + (middle.1 + Run(middle.0, b).1) == (first.1 + middle.1) + Run(middle.0, b).1;
    }
  }

  /** The flag is never raised by running blocks: it ends up where it
    * started or lowered, since `safelySet` always lowers it at the end. */
  lemma {:induction false} NeverRaised(flag: bool, blocks: seq<Block>)
    ensures Run(flag, blocks).0 ==> flag
    decreases blocks, 0
  {
    if |blocks| > 0 {
      StepNeverRaises(flag, blocks[0]);
      NeverRaised(Step(flag, blocks[0]).0, blocks[1..]);
    }
  }

  lemma {:induction false} StepNeverRaises(flag: bool, b: Block)
    ensures Step(flag, b).0 ==> flag
    decreases b
  {
    match b
    case Effect(_) =>
    case Protected(_, body) =>
      if !flag {
        NeverRaised(flag, body);
      }
    case SafelySet(_, _) =>
  }

  /** `protected` and everything it contains leave the flag alone unless a
    * `safelySet` is reached: without one the flag ends as it began. */
  lemma {:induction false} FlagKept(flag: bool, blocks: seq<Block>)
    requires NoSafelySet(blocks)
    ensures Run(flag, blocks).0 == flag
    decreases blocks
  {
    if |blocks| > 0 {
      assert NoSafelySet(blocks[1..]) by {
        forall i | 0 <= i < |blocks[1..]|
          ensures blocks[1..][i] == blocks[i + 1]
        {
        }
      }
      match blocks[0] {
        case Effect(_) =>
        case Protected(_, body) =>
          if !flag {
            FlagKept(flag, body);
          }
        case SafelySet(_, _) =>
          assert false;
      }
      FlagKept(Step(flag, blocks[0]).0, blocks[1..]);
    }
  }

  /** `protected` runs its block exactly when the flag is down; when the flag
    * is up it does nothing at all. */
  lemma ProtectedRunsIffDown(flag: bool, owner: int, body: seq<Block>)
    ensures flag ==> Step(flag, Protected(owner, body)) == (true, [])
    ensures !flag ==> Step(flag, Protected(owner, body)) == Run(false, body)
    ensures NoSafelySet(body) ==> Step(flag, Protected(owner, body)).0 == flag
  {
    if NoSafelySet(body) && !flag {
      FlagKept(flag, body);
    }
  }

  /** `safelySet` always runs its block, whatever the flag, and lowers the
    * flag afterwards. */
  lemma SafelySetAlwaysRuns(flag: bool, owner: int, body: seq<Block>)
    ensures Step(flag, SafelySet(owner, body)).0 == false
    ensures Step(flag, SafelySet(owner, body)).1 == Step(!flag, SafelySet(owner, body)).1
    ensures Plain(body) ==> Step(flag, SafelySet(owner, body)).1 == Effects(body)
  {
    if Plain(body) {
      PlainRuns(true, body);
    }
  }

  /** Blocks that call neither guard perform their effects, in order, and
    * leave the flag alone. */
  lemma {:induction false} PlainRuns(flag: bool, blocks: seq<Block>)
    requires Plain(blocks)
    ensures Run(flag, blocks) == (flag, Effects(blocks))
    decreases blocks
  {
    if |blocks| > 0 {
      assert Plain(blocks[1..]) by {
        forall i | 0 <= i < |blocks[1..]|
          ensures blocks[1..][i] == blocks[i + 1]
        {
        }
      }
      PlainRuns(flag, blocks[1..]);
    }
  }

  /** Inside `safelySet`, a `protected` block reached before any nested
    * `safelySet` is skipped, whichever object owns either guard. */
  lemma ProtectedSkippedInside(flag: bool, owner: int, other: int, inner: seq<Block>, rest: seq<Block>)
    ensures Step(flag, SafelySet(owner, [Protected(other, inner)] + rest)) ==
              (false, Run(true, rest).1)
  {
    var body := [Protected(other, inner)] + rest;
    assert body[0] == Protected(other, inner);
    assert body[1..] == rest;
    assert Run(true, body) == (Run(true, rest).0, [] + Run(true, rest).1);
    assert [] + Run(true, rest).1 == Run(true, rest).1;
  }

  /** A nested `safelySet` lowers the shared flag when it finishes, so the
    * `protected` blocks after it in the outer block run again. */
  lemma NestedSafelySetDropsProtection(owner: int, other: int, inner: seq<Block>, observed: seq<Block>)
    ensures Run(true, [SafelySet(other, inner), Protected(owner, observed)]).0 ==
              Run(false, observed).0
    ensures Run(true, [SafelySet(other, inner), Protected(owner, observed)]).1 ==
              Run(true, inner).1 + Run(false, observed).1
  {
    var blocks := [SafelySet(other, inner), Protected(owner, observed)];
    assert blocks[1..] == [Protected(owner, observed)];
    assert blocks[1..][1..] == [];
    var single := [Protected(owner, observed)];
    assert single[0] == Protected(owner, observed) && single[1..] == [];
    var tail := Run(false, single);
    assert Step(false, single[0]) == Run(false, observed);
    assert Run(Run(false, observed).0, single[1..]) == (Run(false, observed).0, []);
    assert tail == (Run(false, observed).0, Run(false, observed).1 + []);
    assert Run(false, observed).1 + [] == Run(false, observed).1;
    assert Run(true, blocks) == (tail.0, Run(true, inner).1 + tail.1);
  }

  /** The flag and the effects performed so far. */
  class Session {
    /** `loopProtected`, shared by every conformer. */
    var loopProtected: bool
    /** The effects the closures have performed, in order. */
    var performed: seq<int>

    /** The flag starts down. */
    constructor()
      ensures !loopProtected && performed == []
    {
      loopProtected := false;
      performed := [];
    }

    /** Calling a closure: its steps one after another. */
    method Perform(blocks: seq<Block>)
      modifies this
      ensures loopProtected == Run(old(loopProtected), blocks).0
      ensures performed == old(performed) + Run(old(loopProtected), blocks).1
      decreases blocks, 0
    {
      var i := 0;
      while i < |blocks|
        invariant 0 <= i <= |blocks|
        invariant loopProtected == Run(old(loopProtected), blocks[..i]).0
        invariant performed == old(performed) + Run(old(loopProtected), blocks[..i]).1
      {
        var before := loopProtected;
        ghost var done := blocks[..i];
        Execute(blocks[i]);
        RunAppend(old(loopProtected), done, [blocks[i]]);
        assert blocks[..i + 1] == done + [blocks[i]];
        i := i + 1;
      }
      assert blocks[..i] == blocks;
    }

    /** One step of a closure. */
    method Execute(b: Block)
      modifies this
      ensures loopProtected == Step(old(loopProtected), b).0
      ensures performed == old(performed) + Step(old(loopProtected), b).1
      decreases b, 2
    {
      match b
      case Effect(id) =>
        performed := performed + [id];
      case Protected(owner, body) =>
        Protected(owner, body);
      case SafelySet(owner, body) =>
        SafelySet(owner, body);
    }

    /** `protected(_:)`: returns at once while the flag is up, otherwise
      * calls the block. */
    method Protected(owner: int, observerBlock: seq<Block>)
      modifies this
      ensures loopProtected == Step(old(loopProtected), Block.Protected(owner, observerBlock)).0
      ensures performed == old(performed) + Step(old(loopProtected), Block.Protected(owner, observerBlock)).1
      decreases observerBlock, 1
    {
      if loopProtected {
        return;
      }
      Perform(observerBlock);
    }

    /** `safelySet(_:)`: raises the flag, calls the block, lowers the flag. */
    method SafelySet(owner: int, block: seq<Block>)
      modifies this
      ensures !loopProtected
      ensures performed == old(performed) + Step(old(loopProtected), Block.SafelySet(owner, block)).1
      decreases block, 1
    {
      loopProtected := true;
      Perform(block);
      loopProtected := false;
    }
  }
}
