/**
 * The digit decoder of `DrawSevenSegment` in apple-juice.cpp: which of the
 * segments a..g light for a display value. The drawing itself (positions,
 * sizes, colours) is not part of this model.
 */
module SevenSegment {
  /** The segments, numbered as the source's enum: a = 0, b = 1, ..., g = 6. */
  datatype Segment = A | B | C | D | E | F | G

  function Index(s: Segment): (i: nat)
    ensures i < 7
  {
    match s
    case A => 0
    case B => 1
    case C => 2
    case D => 3
    case E => 4
    case F => 5
    case G => 6
  }

  /**
   * The conventional seven-segment code of a decimal digit, with bit i for
   * the segment of index i; anything that is not a digit shows nothing.
   */
  function Code(value: nat): bv7
  {
    if value <= 9 then [0x3F, 0x06, 0x5B, 0x4F, 0x66, 0x6D, 0x7D, 0x07, 0x7F, 0x6F][value] else 0
  }

  /** The segments lit for a value, indexed a..g: bit i of its code lights the segment of index i. */
  function Lit(value: nat): (seg: seq<bool>)
    ensures |seg| == 7
  {
    var c := Code(value);
    [c & 1 != 0, c & 2 != 0, c & 4 != 0, c & 8 != 0, c & 16 != 0, c & 32 != 0, c & 64 != 0]
  }

  /** The code a segment pattern stands for: segment of index i lit sets bit i. */
  function CodeOf(seg: seq<bool>): bv7
    requires |seg| == 7
  {
    (if seg[0] then 1 else 0) | (if seg[1] then 2 else 0) | (if seg[2] then 4 else 0) | (if seg[3] then 8 else 0)
    | (if seg[4] then 16 else 0) | (if seg[5] then 32 else 0) | (if seg[6] then 64 else 0)
  }

  /** Reading the lit segments back gives the code: no information is lost on the display. */
  lemma LitToCode(value: nat)
    ensures CodeOf(Lit(value)) == Code(value)
  {
  }

  /** The `switch (value)` over `bool seg[7] = {false}`. */
  method Decode(value: nat) returns (seg: seq<bool>)
    ensures seg == Lit(value)
  {
    seg := [false, false, false, false, false, false, false];
    match value {
      case 0 =>
        seg := seg[Index(A) := true][Index(B) := true][Index(C) := true][Index(D) := true][Index(E) := true][Index(F) := true];
      case 1 =>
        seg := seg[Index(B) := true][Index(C) := true];
      case 2 =>
        seg := seg[Index(A) := true][Index(B) := true][Index(D) := true][Index(E) := true][Index(G) := true];
      case 3 =>
        seg := seg[Index(A) := true][Index(B) := true][Index(C) := true][Index(D) := true][Index(G) := true];
      case 4 =>
        seg := seg[Index(B) := true][Index(C) := true][Index(F) := true][Index(G) := true];
      case 5 =>
        seg := seg[Index(A) := true][Index(C) := true][Index(D) := true][Index(F) := true][Index(G) := true];
      case 6 =>
        seg := seg[Index(A) := true][Index(C) := true][Index(D) := true][Index(E) := true][Index(F) := true][Index(G) := true];
      case 7 =>
        seg := seg[Index(A) := true][Index(B) := true][Index(C) := true];
      case 8 =>
        seg := seg[Index(A) := true][Index(B) := true][Index(C) := true][Index(D) := true][Index(E) := true][Index(F) := true][Index(G) := true];
      case 9 =>
        seg := seg[Index(A) := true][Index(B) := true][Index(C) := true][Index(D) := true][Index(F) := true][Index(G) := true];
      case _ =>
    }
  }

  /** 8 lights every segment. */
  lemma EightLightsAll(s: Segment)
    ensures Lit(8)[Index(s)]
  {
  }

  /** 1 lights exactly b and c; 7 lights exactly a, b and c. */
  lemma OneAndSeven(s: Segment)
    ensures Lit(1)[Index(s)] <==> s == B || s == C
    ensures Lit(7)[Index(s)] <==> s == A || s == B || s == C
  {
  }

  /** Values above 9 fall through the switch and leave every segment dark. */
  lemma BlankAboveNine(value: nat, s: Segment)
    requires value > 9
    ensures !Lit(value)[Index(s)]
  {
  }

  /** Different digits light different segments, so the display shows every digit unambiguously. */
  lemma DigitsDistinct(x: nat, y: nat)
    requires x <= 9 && y <= 9 && x != y
    ensures Lit(x) != Lit(y)
  {
    LitToCode(x);
    LitToCode(y);
    CodeInjective(x, y);
  }

  lemma CodeInjective(x: nat, y: nat)
    requires x <= 9 && y <= 9 && x != y
    ensures Code(x) != Code(y)
  {
    var table := [0x3F, 0x06, 0x5B, 0x4F, 0x66, 0x6D, 0x7D, 0x07, 0x7F, 0x6F];
    assert forall i, j | 0 <= i < j < 10 :: table[i] != table[j];
  }
}
