/** The Bullet.Impact transpiler: before every `callvirt Thing.TakeDamage`
    that some `ldloc.s` precedes, it inserts a call of
    ApplyProjectileDamageModifier on the local that `ldloc.s` loaded. */
module BulletImpact {
  import opened Wrappers
  import opened Seqs

  /** The methods an instruction can name; only two matter here. */
  datatype MethodRef = TakeDamage | ApplyProjectileDamageModifier | OtherMethod(name: string)

  /** IL instructions: the opcodes the rewrite looks at or emits, and every
      other instruction as an opaque opcode and operand. */
  datatype Instr =
    | LdlocS(local: int)
    | LdlocaS(local: int)
    | Callvirt(callee: MethodRef)
    | Call(callee: MethodRef)
    | Pop
    | Ldarg0
    | Ldarg1
    | Other(opcode: int, operand: int)

  const TakeDamageCall: Instr := Callvirt(TakeDamage)

  /** The six instructions inserted before a matched TakeDamage call, for
      the local `x` of the most recent `ldloc.s`. */
  function ModifierBlock(x: int): seq<Instr> {
    [Pop, Ldarg0, Ldarg1, LdlocaS(x), Call(ApplyProjectileDamageModifier), LdlocS(x)]
  }

  predicate IsModifierBlock(b: seq<Instr>) {
    |b| == 6 && b[3].LdlocaS? && b == ModifierBlock(b[3].local)
  }

  /** `lastLdlocS` after the loop has seen `i`. */
  function Track(i: Instr, last: Option<int>): Option<int> {
    if i.LdlocS? then Some(i.local) else last
  }

  /** What one iteration yields for `i`, with `last` already updated. */
  function Emit(i: Instr, last: Option<int>): seq<Instr> {
    (if i == TakeDamageCall && last.Some? then ModifierBlock(last.value) else []) + [i]
  }

  /** The transpiler's output for `instrs`, starting from `last`. */
  function Rewrite(instrs: seq<Instr>, last: Option<int>): seq<Instr>
    decreases |instrs|
  {
    if instrs == [] then []
    else
      var last' := Track(instrs[0], last);
      Emit(instrs[0], last') + Rewrite(instrs[1..], last')
  }

  /** The final `matchCount` for `instrs`, starting from `last`. */
  function Matches(instrs: seq<Instr>, last: Option<int>): nat
    decreases |instrs|
  {
    if instrs == [] then 0
    else
      var last' := Track(instrs[0], last);
      (if instrs[0] == TakeDamageCall && last'.Some? then 1 else 0) + Matches(instrs[1..], last')
  }

  /** The operand of the most recent `ldloc.s` in `s`, if there is one. */
  function LastLdlocS(s: seq<Instr>): Option<int> {
    if s == [] then None
    else
      var later := LastLdlocS(s[1..]);
      if later.Some? then later else if s[0].LdlocS? then Some(s[0].local) else None
  }

  /** `lastLdlocS` after the whole of `s`. */
  function FinalLast(s: seq<Instr>, last: Option<int>): Option<int>
    decreases |s|
  {
    if s == [] then last else FinalLast(s[1..], Track(s[0], last))
  }

  lemma {:induction false} FinalLastIsMostRecent(s: seq<Instr>, last: Option<int>)
    ensures FinalLast(s, last) == if LastLdlocS(s).Some? then LastLdlocS(s) else last
  {
    if s != [] {
      FinalLastIsMostRecent(s[1..], Track(s[0], last));
    }
  }

  lemma {:induction false} RewriteAppend(s: seq<Instr>, t: seq<Instr>, last: Option<int>)
    ensures Rewrite(s + t, last) == Rewrite(s, last) + Rewrite(t, FinalLast(s, last))
    ensures Matches(s + t, last) == Matches(s, last) + Matches(t, FinalLast(s, last))
  {
    if s == [] {
      assert s + t == t;
    } else {
      assert (s + t)[1..] == s[1..] + t;
      RewriteAppend(s[1..], t, Track(s[0], last));
    }
  }

  /** The output for a stream grows, instruction by instruction, by the
      modifier block for the most recent `ldloc.s` when the instruction is
      a TakeDamage call that some `ldloc.s` precedes, and then by the
      instruction itself; `matchCount` counts those insertions. */
  lemma InsertionBeforeTakeDamage(s: seq<Instr>, i: Instr)
    ensures Rewrite(s + [i], None) ==
      Rewrite(s, None)
      + (if i == TakeDamageCall && LastLdlocS(s).Some? then ModifierBlock(LastLdlocS(s).value) else [])
      + [i]
    ensures Matches(s + [i], None) ==
      Matches(s, None) + (if i == TakeDamageCall && LastLdlocS(s).Some? then 1 else 0)
  {
    RewriteAppend(s, [i], None);
    FinalLastIsMostRecent(s, None);
    assert [i][1..] == [];
  }

  /** Each insertion adds six instructions. */
  lemma {:induction false} RewriteLength(s: seq<Instr>, last: Option<int>)
    ensures |Rewrite(s, last)| == |s| + 6 * Matches(s, last)
  {
    if s != [] {
      RewriteLength(s[1..], Track(s[0], last));
    }
  }

  /** The input, in its order, is a subsequence of the output. */
  lemma {:induction false} InputIsSubsequence(s: seq<Instr>)
    ensures Subseq(s, Rewrite(s, None))
  {
    if s == [] {
      SubseqRefl(s);
    } else {
      var s', i := s[..|s| - 1], s[|s| - 1];
      assert s == s' + [i];
      InsertionBeforeTakeDamage(s', i);
      InputIsSubsequence(s');
      var block := if i == TakeDamageCall && LastLdlocS(s').Some? then ModifierBlock(LastLdlocS(s').value) else [];
      SubseqAppendRight(s', Rewrite(s', None), block);
      SubseqSnoc(s', Rewrite(s', None) + block, i);
    }
  }

  /** No instruction of the method body is lost: each one is still in the
      rewritten body. */
  lemma InputKept(s: seq<Instr>, x: Instr)
    requires x in s
    ensures x in Rewrite(s, None)
  {
    InputIsSubsequence(s);
    SubseqMembers(s, Rewrite(s, None), x);
  }

  /** Without any match the output is the input. */
  lemma {:induction false} NoMatchIdentity(s: seq<Instr>, last: Option<int>)
    requires Matches(s, last) == 0
    ensures Rewrite(s, last) == s
  {
    if s != [] {
      NoMatchIdentity(s[1..], Track(s[0], last));
      assert s == [s[0]] + s[1..];
    }
  }

  /** The error is reported exactly when the method came out unchanged. */
  lemma NoMatchIffUnchanged(s: seq<Instr>)
    ensures Matches(s, None) == 0 <==> Rewrite(s, None) == s
  {
    RewriteLength(s, None);
    if Matches(s, None) == 0 {
      NoMatchIdentity(s, None);
    }
  }

  /** Strips, scanning from the end, every modifier block that sits right
      before a TakeDamage call. */
  function Unpatch(out: seq<Instr>): seq<Instr>
    decreases |out|
  {
    if out == [] then []
    else if |out| >= 7 && out[|out| - 1] == TakeDamageCall && IsModifierBlock(out[|out| - 7..|out| - 1])
    then Unpatch(out[..|out| - 7]) + [TakeDamageCall]
    else Unpatch(out[..|out| - 1]) + [out[|out| - 1]]
  }

  lemma {:induction false} NoLdlocSNoMatch(s: seq<Instr>)
    requires LastLdlocS(s).None?
    ensures Matches(s, None) == 0
    ensures forall k :: 0 <= k < |s| ==> !s[k].LdlocS?
  {
    if s != [] {
      NoLdlocSNoMatch(s[1..]);
      forall k | 1 <= k < |s| ensures !s[k].LdlocS? {
        assert s[k] == s[1..][k - 1];
      }
    }
  }

  /** Removing the inserted blocks gives back the input exactly. */
  lemma {:induction false} UnpatchRewrite(s: seq<Instr>)
    ensures Unpatch(Rewrite(s, None)) == s
  {
    if s != [] {
      var s', i := s[..|s| - 1], s[|s| - 1];
      assert s == s' + [i];
      InsertionBeforeTakeDamage(s', i);
      UnpatchRewrite(s');
      var r := Rewrite(s', None);
      if i == TakeDamageCall && LastLdlocS(s').Some? {
        var out := r + ModifierBlock(LastLdlocS(s').value) + [i];
        assert out[..|out| - 7] == r;
        assert out[|out| - 7..|out| - 1] == ModifierBlock(LastLdlocS(s').value);
      } else if i == TakeDamageCall {
        NoLdlocSNoMatch(s');
        NoMatchIdentity(s', None);
        var out := r + [i];
        assert out[..|out| - 1] == r;
        if |out| >= 7 {
          assert out[|out| - 2] == s'[|s'| - 1];
          assert !IsModifierBlock(out[|out| - 7..|out| - 1]);
        }
        assert Rewrite(s, None) == out;
        assert Unpatch(out) == Unpatch(r) + [i];
      } else {
        var out := r + [i];
        assert Rewrite(s, None) == out;
        assert out[..|out| - 1] == r;
        assert Unpatch(out) == Unpatch(r) + [i];
      }
    }
  }

  /** One more instruction: what the loop does in one iteration. */
  lemma {:induction false} RewriteSnoc(s: seq<Instr>, x: Instr, last: Option<int>)
    ensures FinalLast(s + [x], last) == Track(x, FinalLast(s, last))
    ensures Rewrite(s + [x], last) == Rewrite(s, last) + Emit(x, Track(x, FinalLast(s, last)))
    ensures Matches(s + [x], last)
         == Matches(s, last) + (if x == TakeDamageCall && Track(x, FinalLast(s, last)).Some? then 1 else 0)
  {
    RewriteAppend(s, [x], last);
    assert [x][1..] == [];
    if s == [] {
      assert s + [x] == [x];
    } else {
      assert (s + [x])[1..] == s[1..] + [x];
      RewriteSnoc(s[1..], x, Track(s[0], last));
    }
  }

  /** The Transpiler: streams the instructions through, inserting the
      modifier block where it matches, and reports failure when nothing
      matched. */
  method Transpiler(instructions: seq<Instr>) returns (output: seq<Instr>, failed: bool)
    ensures output == Rewrite(instructions, None)
    ensures failed <==> Matches(instructions, None) == 0
  {
    var matchCount := 0;
    var lastLdlocS: Option<int> := None;
    output := [];
    var i := 0;
    while i < |instructions|
      invariant 0 <= i <= |instructions|
      invariant lastLdlocS == FinalLast(instructions[..i], None)
      invariant output == Rewrite(instructions[..i], None)
      invariant matchCount == Matches(instructions[..i], None)
    {
      var instruction := instructions[i];
      RewriteSnoc(instructions[..i], instruction, None);
      assert instructions[..i + 1] == instructions[..i] + [instruction];
      if instruction.LdlocS? {
        lastLdlocS := Some(instruction.local);
      }
      if instruction == TakeDamageCall {
        if lastLdlocS.Some? {
          matchCount := matchCount + 1;
          output := output + ModifierBlock(lastLdlocS.value);
        }
      }
      output := output + [instruction];
      i := i + 1;
    }
    assert instructions[..i] == instructions;
    failed := matchCount == 0;
  }
}
