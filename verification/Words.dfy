/** Machine words and failure values shared by every module.
    Rust's integer widths are subset types of `int`, so every narrowing, wrap-around and
    saturation of the program is written out. A failed instruction reverts the whole
    transaction, hence one `Result` type covers error codes and panics alike. */
module Words {

  const U64_MAX: int := 0xFFFF_FFFF_FFFF_FFFF
  const U128_MAX: int := 0xFFFF_FFFF_FFFF_FFFF_FFFF_FFFF_FFFF_FFFF
  const I64_MIN: int := -0x8000_0000_0000_0000

  type u8 = x: int | 0 <= x <= 0xFF
  type u16 = x: int | 0 <= x <= 0xFFFF
  type u64 = x: int | 0 <= x <= 0xFFFF_FFFF_FFFF_FFFF
  type u128 = x: int | 0 <= x <= 0xFFFF_FFFF_FFFF_FFFF_FFFF_FFFF_FFFF_FFFF
  type i64 = x: int | -0x8000_0000_0000_0000 <= x <= 0x7FFF_FFFF_FFFF_FFFF

  // Fixed-point unit, basis points and the other constants of constants.rs.
  const NAD: int := 1_000_000_000
  const BPS: int := 10_000
  const MIN_LIQUIDITY: int := 1_000
  const MAX_COLLATERAL_FACTOR_BPS: int := 8_500
  const LTV_BUFFER_BPS: int := 500
  const CLOSE_FACTOR_BPS: int := 5_000
  const LIQUIDATION_INCENTIVE_BPS: int := 50
  const LIQUIDATION_PENALTY_BPS: int := 300
  const DIRECTIONAL_EMA_HALF_LIFE_MS: int := 3_000
  const TARGET_MS_PER_SLOT: int := 400
  const TAYLOR_TERMS: int := 5
  const LN2_NAD: int := 693_147_180
  const DEBT_SHARE_SCALE: int := 1_000_000
  const MILLISECONDS_PER_YEAR: int := 31_536_000_000

  datatype Error =
    | AmountZero
    | Overflow
    | DenominatorOverflow
    | OutputAmountOverflow
    | DebtMathOverflow
    | DebtShareMathOverflow
    | DebtShareDivisionOverflow
    | CashReserveUnderflow
    | InsufficientCashReserve
    | InsufficientDebt
    | ZeroDebtAmount
    | NotUndercollateralized
    | BorrowingPowerExceeded
    | FeeMathOverflow
    | SlippageExceeded
    | BrokenInvariant
    | Panic

  datatype Option<+T> = None | Some(value: T)

  datatype Result<+T> = Ok(value: T) | Err(error: Error) {
    predicate IsFailure() {
      Err?
    }

    function PropagateFailure<U>(): Result<U>
      requires Err?
    {
      Err(error)
    }

    function Extract(): T
      requires Ok?
    {
      value
    }
  }

  function OkOr<T>(o: Option<T>, e: Error): Result<T> {
    match o
    case Some(v) => Ok(v)
    case None => Err(e)
  }

  function Require(condition: bool, e: Error): Result<()> {
    if condition then Ok(()) else Err(e)
  }

  function Min(a: int, b: int): int {
    if a <= b then a else b
  }

  function Max(a: int, b: int): int {
    if a <= b then b else a
  }

  function CheckedAdd(a: u128, b: u128): Option<u128> {
    if a + b <= U128_MAX then Some(a + b) else None
  }

  function CheckedSub(a: u128, b: u128): Option<u128> {
    if b <= a then Some(a - b) else None
  }

  function CheckedMul(a: u128, b: u128): Option<u128> {
    if 0 <= a * b <= U128_MAX then Some(a * b) else None
  }

  function CheckedDiv(a: u128, b: u128): Option<u128> {
    if b == 0 then None else
    assert a / b <= a;
    Some(a / b)
  }

  function ToU64(a: nat): Option<u64> {
    if a <= U64_MAX then Some(a) else None
  }

  function CheckedAdd64(a: u64, b: u64): Option<u64> {
    if a + b <= U64_MAX then Some(a + b) else None
  }

  function CheckedSub64(a: u64, b: u64): Option<u64> {
    if b <= a then Some(a - b) else None
  }

  function SaturatingAdd64(a: u64, b: u64): u64 {
    Min(a + b, U64_MAX)
  }

  function SaturatingSub64(a: u64, b: u64): u64 {
    Max(a - b, 0)
  }

  function SaturatingAdd(a: u128, b: u128): u128 {
    Min(a + b, U128_MAX)
  }

  function SaturatingSub(a: u128, b: u128): u128 {
    Max(a - b, 0)
  }

  function SaturatingMul(a: u128, b: u128): u128 {
    if 0 <= a * b <= U128_MAX then a * b else U128_MAX
  }

  /** `x as i64` of an unsigned value: the low 64 bits, read as two's complement. */
  function AsI64(x: u128): i64 {
    var low := x % 0x1_0000_0000_0000_0000;
    if low < 0x8000_0000_0000_0000 then low else low - 0x1_0000_0000_0000_0000
  }

  /** `x as u64` of an unsigned value: the low 64 bits. */
  function AsU64(x: u128): u64 {
    x % 0x1_0000_0000_0000_0000
  }
}
