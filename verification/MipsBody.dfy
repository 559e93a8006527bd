/**
  Decoded MIPS instructions, as the spin-loop finder sees them: a class of mnemonic,
  the register operands in textual order, the globals named by a %lo relocation, the
  callee of a direct call, and the instruction of its own function that a branch or a `j` goes
  to, by index.  Parsing the disassembly text is not part of this model.
 */
module MipsBody {
  import opened Wrappers

  type Reg = string
  type Symbol = string

  /** The hardwired zero register never carries a value. */
  const ZERO: Reg := "zero"

  /**
    The mnemonic classes the finder tells apart, and one it does not: a `Likely` branch is
    one whose delay slot runs only when it is taken.  `StoreCop2` is the one store that the
    global scan knows (its pattern lists swc2) and the def/use scan does not.
   */
  datatype Kind = Jal | Jalr | Branch | Likely | Store | StoreCop2 | Nop | Plain

  datatype Insn = Insn(kind: Kind, regs: seq<Reg>, globals: seq<Symbol>, callee: Option<Symbol>,
                       target: Option<nat>)
  {
    /** The register the instruction is taken to define. */
    function Def(): Option<Reg> {
      match kind
      case Jal | Jalr => Some("v0")
      case Branch | Likely | Store | Nop => None
      case StoreCop2 | Plain => if regs == [] then None else Some(regs[0])
    }

    /** The registers the instruction is taken to use. */
    function Uses(): seq<Reg> {
      match kind
      case StoreCop2 | Plain => if regs == [] then [] else regs[1..]
      case _ => regs
    }

    predicate IsBranch() {
      kind.Branch? || kind.Likely?
    }

    /** Branches, jumps and calls all end the backward search for the loop's test. */
    predicate TransfersControl() {
      IsBranch() || kind.Jal? || kind.Jalr?
    }

    predicate StoresGlobal() {
      kind.Store? || kind.StoreCop2?
    }
  }
}
