/** Vocabulary shared by every component. */
module Base {

  datatype Option<+T> = None | Some(value: T)

  /** The result codes of include/xdevice.h that the modelled operations return,
      plus the NO_SPACE code that mock_storage.c uses without that header declaring it. */
  datatype Status =
    | Ok
    | Error
    | InvalidParam
    | OutOfMemory
    | Io
    | NotFound
    | Exists
    | Permission
    | NoSpace

  type byte = bv8

  const U32 := 0x1_0000_0000
  const U64 := 0x1_0000_0000_0000_0000

  /** Two sets of member numbers that each hold more than half of them share a member. */
  lemma MajoritiesMeet(a: set<nat>, b: set<nat>, n: nat)
    requires forall x :: x in a + b ==> x < n
    requires |a| > n / 2 && |b| > n / 2
    ensures exists x :: x in a && x in b
  {
    if a * b == {} {
      BoundedSize(a + b, n);
    } else {
      var x :| x in a * b;
    }
  }

  lemma {:induction false} BoundedSize(s: set<nat>, n: nat)
    requires forall x :: x in s ==> x < n
    ensures |s| <= n
  {
    if n > 0 {
      BoundedSize(s - {n - 1}, n - 1);
    } else {
      assert s == {};
    }
  }

  lemma {:induction false} SubsetSize<T>(a: set<T>, b: set<T>)
    requires a <= b
    ensures |a| <= |b|
  {
    if a != {} {
      var x :| x in a;
      SubsetSize(a - {x}, b - {x});
    }
  }

  function HalfByte(n: nat): (b: byte)
    requires n < 16
    ensures b as int == n && b < 16
  {
    if n == 0 then 0 else if n == 1 then 1 else if n == 2 then 2 else if n == 3 then 3
    else if n == 4 then 4 else if n == 5 then 5 else if n == 6 then 6 else if n == 7 then 7
    else if n == 8 then 8 else if n == 9 then 9 else if n == 10 then 10 else if n == 11 then 11
    else if n == 12 then 12 else if n == 13 then 13 else if n == 14 then 14 else 15
  }

  lemma JoinHalves(high: byte, low: byte)
    requires high < 16 && low < 16
    ensures ((high << 4) | low) as int == 16 * (high as int) + (low as int)
  {
  }

  /** A number below 256 survives as a byte; shown through the byte made of its two digits. */
  lemma ByteRoundTrip(n: nat)
    requires n < 256
    ensures (n as byte) as int == n
  {
    var b := (HalfByte(n / 16) << 4) | HalfByte(n % 16);
    JoinHalves(HalfByte(n / 16), HalfByte(n % 16));
    assert (b as int) as byte == b;
  }
}
