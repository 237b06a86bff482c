/** The ids under which servers keep the result of a client's command. */
module CommandIds {

  newtype int32 = x: int | -0x8000_0000 <= x < 0x8000_0000
  newtype int64 = x: int | -0x8000_0000_0000_0000 <= x < 0x8000_0000_0000_0000

  /** A sum in Go's `int64` wraps around. */
  function Wrap64(x: int): int64 {
    ((x + 0x8000_0000_0000_0000) % 0x1_0000_0000_0000_0000 - 0x8000_0000_0000_0000) as int64
  }

  function CommID(client: int32, number: int): int64 {
    Wrap64(client as int * 0x1_0000_0000 + number)
  }

  ghost predicate InRange(number: int) {
    0 <= number < 0x1_0000_0000
  }

  /** Within the range, no two commands share an id. */
  lemma CommIDInjective(c: int32, n: int, c': int32, n': int)
    requires InRange(n) && InRange(n') && CommID(c, n) == CommID(c', n')
    ensures c == c' && n == n'
  {
  }

  /** One past the range, two clients do. */
  lemma CommIDCollides()
    ensures CommID(1, 0x1_0000_0000) == CommID(2, 0)
  {
  }
}
