/**
 The backtrack stack of lre_exec: one array that grows downward and mixes three-word frames with
 undo pairs, and what it has to do with a stack of snapshots.
 */
module RegexpStack {
  import opened RegexpCode

  // ---------- undo pairs ----------

  /** An even number of words: register index and old value, each doubled as a short integer. */
  ghost predicate Pairs(w: seq<int>, n: nat) {
    w == [] || (|w| >= 2 && 0 <= w[0] < 2 * n && w[1] >= 0 && Pairs(w[2..], n))
  }

  /** Captures after undoing the pairs, first one first. */
  ghost function Undo(w: seq<int>, caps: seq<nat>): (r: seq<nat>)
    requires Pairs(w, |caps|)
    ensures |r| == |caps|
  {
    if w == [] then caps else Undo(w[2..], caps[w[0] / 2 := w[1] / 2])
  }

  ghost predicate Saves(w: seq<int>, n: nat, idx: nat)
    requires Pairs(w, n)
  {
    w != [] && (w[0] / 2 == idx || Saves(w[2..], n, idx))
  }

  lemma {:induction false} UndoAppend(u: seq<int>, w: seq<int>, caps: seq<nat>)
    requires Pairs(u, |caps|) && Pairs(w, |caps|)
    ensures Pairs(u + w, |caps|) && Undo(u + w, caps) == Undo(w, Undo(u, caps))
  {
    if u == [] {
      assert u + w == w;
    } else {
      assert (u + w)[2..] == u[2..] + w;
      UndoAppend(u[2..], w, caps[u[0] / 2 := u[1] / 2]);
    }
  }

  /** A register the pairs restore may hold anything. */
  lemma {:induction false} UndoSaved(w: seq<int>, caps: seq<nat>, idx: nat, v: nat)
    requires Pairs(w, |caps|) && idx < |caps| && Saves(w, |caps|, idx)
    ensures Undo(w, caps[idx := v]) == Undo(w, caps)
  {
    var i, x := w[0] / 2, w[1] / 2;
    if i == idx {
      assert caps[idx := v][i := x] == caps[i := x];
    } else {
      assert caps[idx := v][i := x] == caps[i := x][idx := v];
      UndoSaved(w[2..], caps[i := x], idx, v);
    }
  }

  /** A new pair in front restores what it saved. */
  lemma UndoNew(w: seq<int>, caps: seq<nat>, idx: nat, v: nat)
    requires Pairs(w, |caps|) && idx < |caps|
    ensures Pairs([2 * idx, 2 * caps[idx]] + w, |caps|)
    ensures Undo([2 * idx, 2 * caps[idx]] + w, caps[idx := v]) == Undo(w, caps)
  {
    var u := [2 * idx, 2 * caps[idx]] + w;
    assert u[2..] == w && u[0] / 2 == idx && u[1] / 2 == caps[idx];
    assert caps[idx := v][idx := caps[idx]] == caps;
  }

  // ---------- frames ----------

  /** The first word of a frame: where to resume and of what kind it is. */
  function FrameWord(pc: int, kind: nat): int { pc * 8 + kind * 2 }

  lemma FrameWordDecodes(pc: int, kind: nat)
    requires kind < 4
    ensures FrameWord(pc, kind) / 8 == pc && FrameWord(pc, kind) / 2 % 4 == kind
  {}

  /**
   The words above sp are undo pairs up to bp, a frame there, and so on down to the base: undoing the
   pairs above a frame gives the captures that frame stands for.
   */
  ghost predicate Stacked(mem: seq<int>, sp: int, bp: int, caps: seq<nat>, frames: seq<Frame>)
    decreases |frames|
  {
    && 0 <= sp <= bp <= |mem| && Pairs(mem[sp..bp], |caps|)
    && if frames == [] then bp == |mem|
       else
         var f := frames[0];
         && bp + 3 <= |mem| && f.kind < 3 && |f.caps| == |caps|
         && Undo(mem[sp..bp], caps) == f.caps
         && mem[bp] == FrameWord(f.pc, f.kind) && mem[bp + 1] == 2 * f.cptr && mem[bp + 2] % 2 == 0
         && Stacked(mem, bp + 3, mem[bp + 2] / 2, f.caps, frames[1..])
  }

  /** Only the words from sp on matter. */
  lemma {:induction false} StackedFrame(mem: seq<int>, mem': seq<int>, sp: int, bp: int, caps: seq<nat>, frames: seq<Frame>)
    requires Stacked(mem, sp, bp, caps, frames) && |mem'| == |mem| && mem'[sp..] == mem[sp..]
    ensures Stacked(mem', sp, bp, caps, frames)
    decreases |frames|
  {
    assert mem'[sp..bp] == mem'[sp..][..bp - sp] == mem[sp..][..bp - sp] == mem[sp..bp];
    if frames != [] {
      forall k | sp <= k < |mem| ensures mem'[k] == mem[k] {
        assert mem'[k] == mem'[sp..][k - sp] && mem[k] == mem[sp..][k - sp];
      }
      assert mem'[bp + 3..] == mem[bp + 3..];
      StackedFrame(mem, mem', bp + 3, mem[bp + 2] / 2, frames[0].caps, frames[1..]);
    }
  }

  /** A frame pushed on top: it stands for the current captures. */
  lemma StackedPush(mem: seq<int>, mem': seq<int>, sp: int, bp: int, s: Snapshot, pc: int, kind: nat)
    requires Stacked(mem, sp, bp, s.caps, s.frames) && sp >= 3 && kind < 3
    requires mem' == mem[sp - 3 := FrameWord(pc, kind)][sp - 2 := 2 * s.cptr][sp - 1 := 2 * bp]
    ensures Stacked(mem', sp - 3, sp - 3, s.caps, [Frame(pc, kind, s.cptr, s.caps)] + s.frames)
  {
    assert mem'[sp..] == mem[sp..];
    StackedFrame(mem, mem', sp, bp, s.caps, s.frames);
    var fs := [Frame(pc, kind, s.cptr, s.caps)] + s.frames;
    assert fs[1..] == s.frames && mem'[sp - 3..sp - 3] == [];
  }

  /** An undo pair pushed on top lets its register change. */
  lemma StackedSave(mem: seq<int>, mem': seq<int>, sp: int, bp: int, caps: seq<nat>, frames: seq<Frame>, idx: nat, v: nat)
    requires Stacked(mem, sp, bp, caps, frames) && sp >= 2 && idx < |caps|
    requires mem' == mem[sp - 2 := 2 * idx][sp - 1 := 2 * caps[idx]]
    ensures Stacked(mem', sp - 2, bp, caps[idx := v], frames)
  {
    assert mem'[sp..] == mem[sp..];
    StackedFrame(mem, mem', sp, bp, caps, frames);
    assert mem'[sp - 2..bp] == [2 * idx, 2 * caps[idx]] + mem'[sp..bp];
    UndoNew(mem'[sp..bp], caps, idx, v);
  }

  /** A register saved since the last frame may change without another pair. */
  lemma StackedSaved(mem: seq<int>, sp: int, bp: int, caps: seq<nat>, frames: seq<Frame>, idx: nat, v: nat)
    requires Stacked(mem, sp, bp, caps, frames) && idx < |caps| && Saves(mem[sp..bp], |caps|, idx)
    ensures Stacked(mem, sp, bp, caps[idx := v], frames)
  {
    UndoSaved(mem[sp..bp], caps, idx, v);
  }

  /** Only with no frame left does the frame pointer reach the base. */
  lemma StackedBase(mem: seq<int>, sp: int, bp: int, caps: seq<nat>, frames: seq<Frame>)
    requires Stacked(mem, sp, bp, caps, frames)
    ensures bp == |mem| <==> frames == []
  {}

  // ---------- moving undo pairs over consumed frames ----------

  /**
   After the walk that follows a lookahead body, the third word of each consumed frame points back to
   the undo pairs above it; acc is all those pairs, latest first.
   */
  ghost predicate Linked(mem: seq<int>, low: int, sp: int, acc: seq<int>)
    decreases sp
  {
    && 0 <= low <= sp <= |mem|
    && if sp == low then acc == []
       else
         && sp - 3 >= low && mem[sp - 1] % 2 == 0
         && var from := mem[sp - 1] / 2;
         && low <= from <= sp - 3 && sp - 3 - from <= |acc|
         && acc[|acc| - (sp - 3 - from)..] == mem[from..sp - 3]
         && Linked(mem, low, from, acc[..|acc| - (sp - 3 - from)])
  }

  lemma PrefixSame(mem: seq<int>, mem': seq<int>, sp: nat)
    requires sp <= |mem| == |mem'| && mem'[..sp] == mem[..sp]
    ensures forall k :: 0 <= k < sp ==> mem'[k] == mem[k]
    ensures forall i, j :: 0 <= i <= j <= sp ==> mem'[i..j] == mem[i..j]
    ensures forall j :: 0 <= j <= sp ==> mem'[..j] == mem[..j]
  {
    forall k | 0 <= k < sp ensures mem'[k] == mem[k] { assert mem'[..sp][k] == mem[..sp][k]; }
  }

  lemma {:induction false} LinkedFrame(mem: seq<int>, mem': seq<int>, low: int, sp: int, acc: seq<int>)
    requires Linked(mem, low, sp, acc) && |mem'| == |mem| && mem'[..sp] == mem[..sp]
    ensures Linked(mem', low, sp, acc)
    decreases sp
  {
    if sp != low {
      var from := mem[sp - 1] / 2;
      PrefixSame(mem, mem', sp);
      LinkedFrame(mem, mem', low, from, acc[..|acc| - (sp - 3 - from)]);
    }
  }

  /** Walking over one more frame adds the pairs above it. */
  lemma LinkedStep(mem: seq<int>, mem': seq<int>, low: int, sp: int, bp: int, acc: seq<int>)
    requires Linked(mem, low, sp, acc) && sp <= bp && bp + 3 <= |mem|
    requires mem' == mem[bp + 2 := 2 * sp]
    ensures Linked(mem', low, bp + 3, acc + mem[sp..bp])
  {
    assert mem'[..sp] == mem[..sp];
    LinkedFrame(mem, mem', low, sp, acc);
    var all := acc + mem[sp..bp];
    assert all[..|all| - (bp - sp)] == acc && all[|all| - (bp - sp)..] == mem[sp..bp] == mem'[sp..bp];
  }
}
