/**
 * The wrap-around highlight both the course selector and the command
 * palette move with the arrow keys: ArrowDown goes to `i + 1` unless `i`
 * is at (or past) the last index, when it goes back to 0; ArrowUp goes to
 * `i - 1` unless `i` is 0 or less, when it goes to the last index.
 */
module Selection {

  /** `prev < len - 1 ? prev + 1 : 0`. */
  function Down(i: int, len: int): (r: int)
    ensures -1 <= i ==> 0 <= r
    ensures 0 < len ==> r < len
    ensures 0 <= i < len - 1 ==> r == i + 1
    ensures i == len - 1 ==> r == 0
  {
    if i < len - 1 then i + 1 else 0
  }

  /** `prev > 0 ? prev - 1 : len - 1`. */
  function Up(i: int, len: int): (r: int)
    ensures 0 < len && i <= len ==> 0 <= r < len
    ensures 0 < i ==> r == i - 1
    ensures i <= 0 ==> r == len - 1
  {
    if i > 0 then i - 1 else len - 1
  }

  /** Within a non-empty list, ArrowUp undoes ArrowDown and ArrowDown undoes ArrowUp. */
  lemma DownUpInverse(i: int, len: int)
    requires 0 <= i < len
    ensures Up(Down(i, len), len) == i
    ensures Down(Up(i, len), len) == i
  {
  }

  /** `k` presses of ArrowDown. */
  function DownTimes(i: int, len: int, k: nat): int {
    if k == 0 then i else Down(DownTimes(i, len, k - 1), len)
  }

  /**
   * From a highlighted index, `k` presses of ArrowDown move `k` places
   * forward, wrapping past the end; after `len` presses the highlight is
   * back where it started, having visited the whole list.
   */
  lemma {:induction false} DownCycles(i: int, len: int, k: nat)
    requires 0 <= i < len && k <= len
    ensures DownTimes(i, len, k) == if i + k < len then i + k else i + k - len
  {
    if k > 0 {
      DownCycles(i, len, k - 1);
    }
  }
}
