/** The cell-content domain of src/core/value.rs: nine digits and the `Unknown` sentinel. */
module Values {
  import Format

  /** Rust's `u8`. */
  newtype u8 = n: int | 0 <= n < 256

  /** Declared in this order; the derived `Ord` compares by declaration position. */
  datatype Value = One | Two | Three | Four | Five | Six | Seven | Eight | Nine | Unknown

  predicate IsDigit(v: Value) {
    v != Unknown
  }

  /** Declaration position of a variant: the key of the derived ordering. */
  function Rank(v: Value): (r: nat)
    ensures r < 10
    ensures r == 9 <==> v == Unknown
  {
    match v
    case One => 0
    case Two => 1
    case Three => 2
    case Four => 3
    case Five => 4
    case Six => 5
    case Seven => 6
    case Eight => 7
    case Nine => 8
    case Unknown => 9
  }

  /** The derived `<` on `Value`. */
  predicate Less(a: Value, b: Value) {
    Rank(a) < Rank(b)
  }

  /** `options()`: the candidate domain, every digit and never `Unknown`. */
  function Options(): (r: set<Value>)
    ensures forall v :: v in r <==> IsDigit(v)
    ensures |r| == 9
  {
    {One, Two, Three, Four, Five, Six, Seven, Eight, Nine}
  }

  /** `to_val`: 1..9 become the digits, every other byte (0 included) `Unknown`. */
  function ToVal(n: u8): (v: Value)
    ensures v == Unknown <==> n == 0 || n > 9
    ensures IsDigit(v) ==> Rank(v) + 1 == n as int
  {
    match n
    case 1 => One
    case 2 => Two
    case 3 => Three
    case 4 => Four
    case 5 => Five
    case 6 => Six
    case 7 => Seven
    case 8 => Eight
    case 9 => Nine
    case _ => Unknown
  }

  /** `from_val`: digits become 1..9 and `Unknown` becomes 0. */
  function FromVal(v: Value): (n: u8)
    ensures n <= 9
    ensures n == 0 <==> v == Unknown
    ensures IsDigit(v) ==> n as int == Rank(v) + 1
  {
    match v
    case One => 1
    case Two => 2
    case Three => 3
    case Four => 4
    case Five => 5
    case Six => 6
    case Seven => 7
    case Eight => 8
    case Nine => 9
    case Unknown => 0
  }

  /** `Display`: the `from_val` number in decimal, "0" for `Unknown`. */
  function Display(v: Value): (s: string)
    ensures |s| == 1 && s[0] == Format.DigitChar(FromVal(v) as nat)
    ensures s == "0" <==> v == Unknown
  {
    Format.Dec(FromVal(v) as nat)
  }

  lemma ToValOfFromVal(v: Value)
    ensures ToVal(FromVal(v)) == v
  {
  }

  lemma FromValOfToVal(n: u8)
    ensures FromVal(ToVal(n)) == if n <= 9 then n else 0
  {
  }

  /** For a digit d, a byte shows d exactly when it is d's number. */
  lemma ToValIsDigit(n: u8, d: Value)
    requires IsDigit(d)
    ensures ToVal(n) == d <==> n == FromVal(d)
  {
  }

  /** The derived ordering is a strict total order with `Unknown` greatest. */
  lemma LessIsStrictTotalOrder(a: Value, b: Value, c: Value)
    ensures !Less(a, a)
    ensures Less(a, b) && Less(b, c) ==> Less(a, c)
    ensures a != b ==> Less(a, b) || Less(b, a)
    ensures IsDigit(a) ==> Less(a, Unknown)
  {
  }

  /** On the digits `from_val` is strictly monotone. */
  lemma FromValMonotone(a: Value, b: Value)
    requires IsDigit(a) && IsDigit(b)
    ensures Less(a, b) <==> FromVal(a) < FromVal(b)
  {
  }

  /** Different values display differently. */
  lemma DisplayInjective(a: Value, b: Value)
    ensures Display(a) == Display(b) ==> a == b
  {
    if Display(a) == Display(b) {
      assert Format.DigitChar(FromVal(a) as nat) == Format.DigitChar(FromVal(b) as nat);
      ToValOfFromVal(a);
      ToValOfFromVal(b);
    }
  }
}
