/**
 * The GPIO pin-configuration macros of gpio.c. The function-select
 * registers hold ten 3-bit fields per 32-bit word: pin g owns field
 * g % 10, the bits (g % 10) * 3 .. (g % 10) * 3 + 2 of word g / 10. The
 * macros are read-modify-write updates of that word: the bit arithmetic is
 * stated on single words, and the methods apply it to the register window.
 *
 * Each bit-level fact is a lemma of its own: the solver settles one such
 * fact about a symbolic field index quickly, but not several at once.
 */
module GpioSelect {
  import opened Registers

  /** Word offsets of the output-set, output-clear and pin-level registers. */
  const SET_WORD: int := 7
  const CLR_WORD: int := 10
  const LEVEL_WORD: int := 13

  /** What a function-select field selects. */
  datatype PinFunction = Input | Output | Alt(n: nat)

  /** The documented meaning of each 3-bit function-select code. */
  function Decode(code: bv32): PinFunction
    requires code < 8
  {
    match code
    case 0 => Input
    case 1 => Output
    case 4 => Alt(0)
    case 5 => Alt(1)
    case 6 => Alt(2)
    case 7 => Alt(3)
    case 3 => Alt(4)
    case _ => Alt(5)
  }

  /** The three bits of the function-select field with index k, `7 << (k * 3)`. */
  function FieldMask(k: bv32): bv32
    requires k < 10
  {
    7 << (3 * k)
  }

  /** The function-select field with index k of word w. */
  function FieldAt(w: bv32, k: bv32): (code: bv32)
    requires k < 10
    ensures code < 8
  {
    (w >> (3 * k)) & 7
  }

  /** Every bit of r outside field k is as in w: the other nine fields and the two spare top bits. */
  predicate OnlyFieldChanged(w: bv32, r: bv32, k: bv32)
    requires k < 10
  {
    r & !FieldMask(k) == w & !FieldMask(k)
  }

  /** Changing only field k leaves each other field as it was. */
  lemma OtherFieldKept(w: bv32, r: bv32, k: bv32, k': bv32)
    requires k < 10 && k' < 10 && k != k'
    requires OnlyFieldChanged(w, r, k)
    ensures FieldAt(r, k') == FieldAt(w, k')
  {
  }

  /** The field index of pin g inside its word, `g % 10`. */
  function FieldIndex(g: nat): (k: bv32)
    ensures k < 10
  {
    (g % 10) as bv32
  }

  // Bit-level facts about the word expressions of the macros, one per lemma.

  /** Clearing the bits of field k leaves that field at 0. */
  lemma MaskedOutField(w: bv32, k: bv32)
    requires k < 10
    ensures FieldAt(w & !FieldMask(k), k) == 0
  {
  }

  /** Clearing the bits of field k keeps every other bit. */
  lemma MaskedOutKeepsRest(w: bv32, k: bv32)
    requires k < 10
    ensures OnlyFieldChanged(w, w & !FieldMask(k), k)
  {
  }

  /** ORing a 3-bit code c into field k ORs c into that field. */
  lemma OredInField(w: bv32, k: bv32, c: bv32)
    requires k < 10 && c < 8
    ensures FieldAt(w | (c << (3 * k)), k) == FieldAt(w, k) | c
  {
  }

  /** ORing a 3-bit code c into field k keeps every other bit. */
  lemma OredInKeepsRest(w: bv32, k: bv32, c: bv32)
    requires k < 10 && c < 8
    ensures OnlyFieldChanged(w, w | (c << (3 * k)), k)
  {
  }

  /** With bit g of the level word set, the masked word is `1 << g`. */
  lemma LevelBitSet(level: bv32, g: bv32)
    requires g < 32 && (level >> g) & 1 == 1
    ensures level & (1 << g) == 1 << g
  {
  }

  /** With bit g of the level word clear, the masked word is 0. */
  lemma LevelBitClear(level: bv32, g: bv32)
    requires g < 32 && (level >> g) & 1 != 1
    ensures level & (1 << g) == 0
  {
  }

  /** `INP_GPIO` on one word: clear field k, which selects input, and keep every other bit. */
  function ClearField(w: bv32, k: bv32): (r: bv32)
    requires k < 10
    ensures Decode(FieldAt(r, k)) == Input
    ensures OnlyFieldChanged(w, r, k)
  {
    MaskedOutField(w, k);
    MaskedOutKeepsRest(w, k);
    w & !FieldMask(k)
  }

  /** OR the 3-bit code c into field k, the shared shape of `OUT_GPIO` and `SET_GPIO_ALT`. */
  function OrIntoField(w: bv32, k: bv32, c: bv32): (r: bv32)
    requires k < 10 && c < 8
    ensures FieldAt(r, k) == FieldAt(w, k) | c
    ensures OnlyFieldChanged(w, r, k)
  {
    OredInField(w, k, c);
    OredInKeepsRest(w, k, c);
    w | (c << (3 * k))
  }

  /** `OUT_GPIO` on one word: OR the lowest bit into field k and keep every other bit. */
  function SetLowBit(w: bv32, k: bv32): (r: bv32)
    requires k < 10
    ensures FieldAt(r, k) == FieldAt(w, k) | 1
    ensures OnlyFieldChanged(w, r, k)
  {
    OrIntoField(w, k, 1)
  }

  /**
   * The code `SET_GPIO_ALT` ORs in for alternate function a: the documented
   * code of that alternate function for a <= 5; any larger a falls through
   * to the code of alternate function 5.
   */
  function AltCode(a: nat): (code: bv32)
    ensures code < 8
    ensures a <= 5 ==> Decode(code) == Alt(a)
    ensures a > 5 ==> Decode(code) == Alt(5)
  {
    if a <= 3 then (a + 4) as bv32 else if a == 4 then 3 else 2
  }

  /** `SET_GPIO_ALT` on one word: OR the code of alternate function a into field k and keep every other bit. */
  function OrAltCode(w: bv32, k: bv32, a: nat): (r: bv32)
    requires k < 10
    ensures FieldAt(r, k) == FieldAt(w, k) | AltCode(a)
    ensures OnlyFieldChanged(w, r, k)
  {
    OrIntoField(w, k, AltCode(a))
  }

  /** `GET_GPIO` on the pin-level word: `1 << g` when bit g is set, 0 when it is clear. */
  function PinLevel(level: bv32, g: bv32): (r: bv32)
    requires g < 32
    ensures r == if (level >> g) & 1 == 1 then 1 << g else 0
  {
    if (level >> g) & 1 == 1 then LevelBitSet(level, g); level & (1 << g)
    else LevelBitClear(level, g); level & (1 << g)
  }

  /** After `INP_GPIO`, `SET_GPIO_ALT` leaves exactly the alternate-function code in field k. */
  lemma AltCodeAfterClear(w: bv32, k: bv32, a: nat)
    requires k < 10
    ensures FieldAt(OrAltCode(ClearField(w, k), k, a), k) == AltCode(a)
  {
  }

  /** `INP_GPIO` then `OUT_GPIO`: field k selects output, every other bit is kept. */
  lemma InputThenOutput(w: bv32, k: bv32)
    requires k < 10
    ensures Decode(FieldAt(SetLowBit(ClearField(w, k), k), k)) == Output
    ensures OnlyFieldChanged(w, SetLowBit(ClearField(w, k), k), k)
  {
  }

  /** `INP_GPIO` then `SET_GPIO_ALT` with a <= 5: field k selects alternate function a, every other bit is kept. */
  lemma InputThenAlt(w: bv32, k: bv32, a: nat)
    requires k < 10 && a <= 5
    ensures Decode(FieldAt(OrAltCode(ClearField(w, k), k, a), k)) == Alt(a)
    ensures OnlyFieldChanged(w, OrAltCode(ClearField(w, k), k, a), k)
  {
    AltCodeAfterClear(w, k, a);
  }

  /**
   * `OUT_GPIO` without `INP_GPIO` first: the field keeps its old bits and
   * gains bit 0, so a pin left on alternate function 0 lands on alternate
   * function 1 rather than on output.
   */
  lemma OutputWithoutInput(w: bv32, k: bv32)
    requires k < 10 && Decode(FieldAt(w, k)) == Alt(0)
    ensures Decode(FieldAt(SetLowBit(w, k), k)) == Alt(1)
  {
  }

  // The macros as updates of the GPIO register window. Pin g's field lives
  // in word g / 10; a pin whose word lies outside the window would write
  // outside the mapping, which the macros do not guard against.

  /** `INP_GPIO(g)`: clear pin g's function-select field (select input). */
  method InpGpio(gpio: array<bv32>, g: nat)
    requires gpio.Length == WINDOW && g / 10 < WINDOW
    modifies gpio
    ensures gpio[..] == old(gpio[..])[g / 10 := ClearField(old(gpio[g / 10]), FieldIndex(g))]
  {
    gpio[g / 10] := gpio[g / 10] & !FieldMask(FieldIndex(g));
  }

  /** `OUT_GPIO(g)`: OR the lowest bit into pin g's field (output, if the field was cleared first). */
  method OutGpio(gpio: array<bv32>, g: nat)
    requires gpio.Length == WINDOW && g / 10 < WINDOW
    modifies gpio
    ensures gpio[..] == old(gpio[..])[g / 10 := SetLowBit(old(gpio[g / 10]), FieldIndex(g))]
  {
    gpio[g / 10] := SetLowBit(gpio[g / 10], FieldIndex(g));
  }

  /** `SET_GPIO_ALT(g, a)`: OR the code of alternate function a into pin g's field. */
  method SetGpioAlt(gpio: array<bv32>, g: nat, a: nat)
    requires gpio.Length == WINDOW && g / 10 < WINDOW
    modifies gpio
    ensures gpio[..] == old(gpio[..])[g / 10 := OrAltCode(old(gpio[g / 10]), FieldIndex(g), a)]
  {
    gpio[g / 10] := OrAltCode(gpio[g / 10], FieldIndex(g), a);
  }

  /** `GPIO_SET = bits`: store bits in the output-set register. */
  method GpioSet(gpio: array<bv32>, bits: bv32)
    requires gpio.Length == WINDOW
    modifies gpio
    ensures gpio[..] == old(gpio[..])[SET_WORD := bits]
  {
    gpio[SET_WORD] := bits;
  }

  /** `GPIO_CLR = bits`: store bits in the output-clear register. */
  method GpioClr(gpio: array<bv32>, bits: bv32)
    requires gpio.Length == WINDOW
    modifies gpio
    ensures gpio[..] == old(gpio[..])[CLR_WORD := bits]
  {
    gpio[CLR_WORD] := bits;
  }

  /** `GET_GPIO(g)`: read pin g's bit of the pin-level register, 0 or `1 << g`. */
  method GetGpio(gpio: array<bv32>, g: nat) returns (r: bv32)
    requires gpio.Length == WINDOW && g < 32
    ensures r == if (gpio[LEVEL_WORD] >> (g as bv32)) & 1 == 1 then 1 << (g as bv32) else 0
  {
    r := gpio[LEVEL_WORD] & (1 << (g as bv32));
  }
}
