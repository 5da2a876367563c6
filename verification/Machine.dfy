/** 32-bit machine arithmetic of the kernel's target, and the outcome of code that may panic. */
module Machine {
  const TWO_31 := 0x8000_0000
  const TWO_32 := 0x1_0000_0000

  type Byte = b: int | 0 <= b < 0x100
  type Word16 = w: int | 0 <= w < 0x1_0000
  type Word32 = w: int | 0 <= w < TWO_32

  /** The value an unsigned 32-bit variable holds after x is stored in it. */
  function ToUint32(x: int): (r: int)
    ensures 0 <= r < TWO_32
    ensures 0 <= x < TWO_32 ==> r == x
  {
    x % TWO_32
  }

  /** The value a signed 32-bit variable holds after x is stored in it (two's complement). */
  function ToInt32(x: int): (r: int)
    ensures -TWO_31 <= r < TWO_31
    ensures -TWO_31 <= x < TWO_31 ==> r == x
    ensures ToUint32(r) == ToUint32(x)
  {
    var u := ToUint32(x);
    if u < TWO_31 then u else u - TWO_32
  }

  function Min(a: int, b: int): int {
    if a < b then a else b
  }

  function Max(a: int, b: int): int {
    if a > b then a else b
  }

  function DivideRoundUp(a: nat, b: nat): nat
    requires b > 0
  {
    a / b + Min(1, a % b)
  }

  datatype Option<+T> = None | Some(value: T)

  /** kernel_assert and RAISE_ERROR stop the machine; Panic is that end of a call. */
  datatype Outcome<+T> = Panic | Ok(value: T)
}
