/** The engine's bytecode: sizes and stack effects of its instructions. */
module Opcodes {

  const OP_COUNT: nat := 126

  const OP_RETURN: nat := 28
  const OP_RETURN_UNDEF: nat := 29
  const OP_THROW: nat := 30
  const OP_GET_LOC: nat := 44
  const OP_PUT_LOC: nat := 45
  const OP_GET_VAR_REF: nat := 48
  const OP_PUT_VAR_REF: nat := 49
  const OP_GET_VAR_REF_NOCHECK: nat := 50
  const OP_PUT_VAR_REF_NOCHECK: nat := 51
  const OP_IF_FALSE: nat := 52
  const OP_IF_TRUE: nat := 53
  const OP_GOTO: nat := 54
  const OP_GOSUB: nat := 56
  const OP_RET: nat := 57

  function OpSize(op: nat): (n: nat)
    ensures 0 < op < OP_COUNT ==> 1 <= n <= 5
  {
    if op == 1 || 52 <= op <= 56 then 5
    else if op == 2 || op == 3 || op == 9 || 24 <= op <= 27 || 32 <= op <= 34 || 40 <= op <= 42 || 44 <= op <= 51
            || op == 104 then 3
    else if op == 103 || op == 105 || op == 106 || op == 108 || op == 109 then 2
    else if op < OP_COUNT then 1
    else 0
  }

  /** Calls also pop their arguments, counted in a two-byte operand. */
  predicate CountsArguments(op: nat) { 24 <= op <= 27 }

  lemma CallSize(op: nat)
    requires CountsArguments(op)
    ensures OpSize(op) == 3
  {}

  lemma JumpSize(op: nat)
    requires op == OP_GOTO || op == OP_IF_FALSE || op == OP_IF_TRUE || op == OP_GOSUB
    ensures OpSize(op) == 5
  {}

  function OpPops(op: nat): nat {
    if op == 13 || op == 15 || op == 24 || op == 25 || op == 28 || op == 30 || op == 32 || op == 33 ||
       op == 38 || op == 39 || op == 45 || op == 47 || op == 49 || 51 <= op <= 53 || 57 <= op <= 69 ||
       op == 109 || 114 <= op <= 117 || 122 <= op <= 125 then 1
    else if op == 14 || 16 <= op <= 18 || op == 22 || op == 26 || op == 31 || 34 <= op <= 36 ||
       40 <= op <= 43 || 70 <= op <= 92 then 2
    else if op == 19 || op == 20 || op == 23 || op == 37 then 3
    else if op == 21 then 4
    else 0
  }

  function OpPushes(op: nat): nat {
    if 1 <= op <= 12 || op == 14 || 24 <= op <= 27 || op == 31 || op == 32 || op == 35 || op == 38 ||
       40 <= op <= 44 || op == 46 || op == 48 || op == 50 || op == 55 || op == 58 || op == 59 ||
       61 <= op <= 64 || 67 <= op <= 92 || 94 <= op <= 108 || 110 <= op <= 113 || 118 <= op <= 121 then 1
    else if op == 15 || op == 22 || op == 33 || op == 36 || op == 39 || op == 65 || op == 66 then 2
    else if op == 16 || op == 18 || op == 20 || op == 23 || op == 60 then 3
    else if op == 17 || op == 19 || op == 21 then 4
    else 0
  }
}
