/** The slots of a wrapping table of n slots. */
module Ring {

  // The source masks with n - 1; n is a power of two, so the index wraps from n - 1 to 0 and back.
  function Next(i: nat, n: nat): (r: nat)
    requires i < n
    ensures r < n
  {
    if i + 1 == n then 0 else i + 1
  }

  function Previous(i: nat, n: nat): (r: nat)
    requires i < n
    ensures r < n && Next(r, n) == i
  {
    if i == 0 then n - 1 else i - 1
  }

  /** The slot at linear position t when the reading starts at slot b. */
  function Slot(b: nat, t: nat, n: nat): (i: nat)
    requires b < n && t < n
    ensures i < n
  {
    if b + t < n then b + t else b + t - n
  }

  /** The linear position of slot i when the reading starts at slot b. */
  function Position(b: nat, i: nat, n: nat): (t: nat)
    requires b < n && i < n
    ensures t < n && Slot(b, t, n) == i
  {
    if b <= i then i - b else i - b + n
  }
}
