/**
 * The LED-only boards of janela.cpp (and the console versions teste.cpp and
 * testes/teste.cpp): one CD4017 advanced by a worker while switched on, plus
 * the ENTER (power) and R (reset) commands. As for the full board, one pass
 * of the worker loop and each command are sequential methods.
 */
module LedBoard {
  import opened Bits
  import RingCounter

  class LampBoard {
    const chip: RingCounter.Chip4017
    var powered: bool

    ghost predicate Valid()
      reads this, chip
    {
      chip.Valid()
    }

    /** The worker captures the counter built in `main`; the board starts switched off. */
    constructor (chip: RingCounter.Chip4017)
      requires chip.Valid()
      ensures Valid() && this.chip == chip && !powered
    {
      this.chip := chip;
      powered := false;
    }

    /** One pass of the worker loop: one shift when switched on, no change when off. */
    method Iterate()
      requires Valid()
      modifies chip
      ensures Valid() && chip.limitReset == old(chip.limitReset)
      ensures chip.out == if powered then RingCounter.NextMask(old(chip.out), chip.limitReset) else old(chip.out)
    {
      if powered {
        chip.Shift();
      }
    }

    /** The R key. */
    method Reset()
      requires Valid()
      modifies chip
      ensures Valid() && chip.limitReset == old(chip.limitReset)
      ensures chip.out == RingCounter.InitialMask(chip.limitReset)
    {
      chip.Reset();
    }

    /** The ENTER key. */
    method TogglePower()
      modifies this
      ensures powered == !old(powered)
    {
      powered := !powered;
    }
  }

  /**
   * While the board stays switched on, n passes of the worker shift the
   * counter n times; while it stays off, they leave it alone.
   */
  method RunWorker(board: LampBoard, n: nat)
    requires board.Valid()
    modifies board.chip
    ensures board.Valid() && board.chip.limitReset == old(board.chip.limitReset)
    ensures board.chip.out == if board.powered
      then RingCounter.MaskAfter(old(board.chip.out), board.chip.limitReset, n)
      else old(board.chip.out)
  {
    var i := 0;
    while i < n
      invariant 0 <= i <= n
      invariant board.Valid() && board.chip.limitReset == old(board.chip.limitReset)
      invariant board.chip.out == if board.powered
        then RingCounter.MaskAfter(old(board.chip.out), board.chip.limitReset, i)
        else old(board.chip.out)
    {
      board.Iterate();
      i := i + 1;
    }
  }
}
