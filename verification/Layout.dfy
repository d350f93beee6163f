/** Constants of the address space and the C integer types the kernel uses. */
module Layout {
  const PAGE_SIZE := 4096
  const ENTRIES := 1024

  /** Subset types: every assignment to a variable of these types is proved not to wrap. */
  type uint32 = x: int | 0 <= x < 0x1_0000_0000
  type uint16 = x: int | 0 <= x < 0x1_0000
  type byte = x: int | 0 <= x < 256

  const USER_HEAP_START := 0x8000_0000
  const USER_HEAP_MAX := 0xA000_0000
  /** (USER_HEAP_MAX - USER_HEAP_START) / PAGE_SIZE */
  const HEAP_PAGES := 0x2_0000

  function RoundDown(a: nat, n: nat): (r: nat)
    requires n > 0
  {
    a - a % n
  }

  /** ROUNDUP adds n - 1 first, and that addition is 32 bits wide. */
  function RoundUp(a: uint32, n: nat): (r: nat)
    requires n > 0
  {
    RoundDown((a + n - 1) % 0x1_0000_0000, n)
  }

  /** How many pages a request of so many bytes takes. */
  function PagesFor(size: uint32): (k: nat)
    ensures size <= 0xFFFF_F000 ==> (k - 1) * PAGE_SIZE < size <= k * PAGE_SIZE
  {
    RoundUp(size, PAGE_SIZE) / PAGE_SIZE
  }

  /** Up to the last page boundary below 2^32, ROUNDUP gives the least page multiple not below a. */
  lemma RoundUpToPages(a: uint32)
    requires a <= 0xFFFF_F000
    ensures RoundUp(a, PAGE_SIZE) % PAGE_SIZE == 0 && a <= RoundUp(a, PAGE_SIZE) < a + PAGE_SIZE
  {
    hide RoundDown;
    SmallRemainder(a + PAGE_SIZE - 1, 0x1_0000_0000);
    RoundDownToPages(a + PAGE_SIZE - 1);
  }

  lemma SmallRemainder(x: nat, n: nat)
    requires x < n
    ensures x % n == x
  {
  }

  lemma RoundDownToPages(b: nat)
    ensures RoundDown(b, PAGE_SIZE) % PAGE_SIZE == 0 && b - PAGE_SIZE < RoundDown(b, PAGE_SIZE) <= b
  {
  }
}
