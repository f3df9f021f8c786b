/** The machine integers the source uses, and its casts between them. */
module Numbers {

  type byte = n: int | 0 <= n < 256
  type u32 = n: int | 0 <= n < 0x1_0000_0000
  type u64 = n: int | 0 <= n < 0x1_0000_0000_0000_0000
  type i32 = n: int | -0x8000_0000 <= n < 0x8000_0000

  /** `x as u32` for a length */
  function AsU32(x: nat): u32
  {
    x % 0x1_0000_0000
  }

  /** A sum or product formed in 64 bits */
  function AsU64(x: nat): u64
  {
    x % 0x1_0000_0000_0000_0000
  }

  /** `x as i32`: exact on the values the type holds, wrapped around on all others. */
  function AsI32(x: int): (r: i32)
    ensures -0x8000_0000 <= x < 0x8000_0000 <==> r == x
    ensures 0 <= x < 0x1_0000_0000 ==> r == if x < 0x8000_0000 then x else x - 0x1_0000_0000
  {
    var m := x % 0x1_0000_0000;
    if m < 0x8000_0000 then m else m - 0x1_0000_0000
  }

  function Pow2(k: nat): (r: nat)
    ensures r >= 1
  {
    if k == 0 then 1 else 2 * Pow2(k - 1)
  }
}
