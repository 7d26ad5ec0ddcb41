/** The names the Raft adapter of src/storage/storage_manager.c gives to its keys, and exactly
    which keys share a name. */
module AdapterPaths {
  import opened Base
  import MockFiles

  const DEVICE_PREFIX_LEN := 64

  datatype Key = Log(index: nat) | State(name: string) | Snapshot(index: nat)

  /** printf's %lu. */
  function Decimal(n: nat): (s: string)
    ensures |s| >= 1
  {
    if n < 10 then [Digit(n)] else Decimal(n / 10) + [Digit(n % 10)]
  }

  function Digit(d: nat): char
    requires d < 10
  {
    "0123456789"[d]
  }

  /** The kind's prefix and the key. */
  function Text(key: Key): string {
    match key
    case Log(index) => "log_" + Decimal(index)
    case State(name) => "state_" + name
    case Snapshot(index) => "snap_" + Decimal(index)
  }

  function Cut(s: string, n: nat): string {
    if |s| <= n then s else s[..n]
  }

  /** The device prefix as the adapter keeps it: strncpy into 64 bytes that were cleared. */
  function Kept(device: string): string {
    Cut(device, DEVICE_PREFIX_LEN - 1)
  }

  /** snprintf into a 512-byte buffer. */
  function Path(device: string, key: Key): string {
    Cut(Kept(device) + Text(key), MockFiles.MAX_PATH_LEN - 1)
  }

  /** The characters left for a key after the device prefix. */
  function Room(device: string): nat {
    MockFiles.MAX_PATH_LEN - 1 - |Kept(device)|
  }

  predicate FitsPath(device: string, key: Key) {
    |Text(key)| <= Room(device)
  }

  lemma {:induction false} DecimalInjective(a: nat, b: nat)
    requires Decimal(a) == Decimal(b)
    ensures a == b
    decreases a
  {
    var s := Decimal(a);
    assert s[|s| - 1] == Digit(a % 10) && s[|s| - 1] == Digit(b % 10);
    DigitInjective(a % 10, b % 10);
    if a >= 10 {
      assert |s| >= 2;
      assert s[..|s| - 1] == Decimal(a / 10) && s[..|s| - 1] == Decimal(b / 10);
      DecimalInjective(a / 10, b / 10);
    }
  }

  lemma DigitInjective(a: nat, b: nat)
    requires a < 10 && b < 10 && Digit(a) == Digit(b)
    ensures a == b
  {
    assert forall i, j :: 0 <= i < j < 10 ==> "0123456789"[i] != "0123456789"[j];
  }

  /** The number that a string of digits stands for, the most significant first. */
  function ReadDecimal(s: string): int {
    if s == [] then 0 else 10 * ReadDecimal(s[..|s| - 1]) + (s[|s| - 1] as int - '0' as int)
  }

  /** A number's rendering reads back as it, and starts with no superfluous zero. */
  lemma {:induction false} DecimalReads(n: nat)
    ensures ReadDecimal(Decimal(n)) == n && (Decimal(n)[0] == '0' <==> n == 0)
    decreases n
  {
    DigitReads(n % 10);
    if n < 10 {
      assert Decimal(n)[..0] == [];
    } else {
      var s := Decimal(n);
      DecimalReads(n / 10);
      assert s[..|s| - 1] == Decimal(n / 10);
    }
  }

  lemma DigitReads(d: nat)
    requires d < 10
    ensures Digit(d) as int - '0' as int == d && (Digit(d) == '0' <==> d == 0)
  {
  }

  /** One path of each kind, spelled out. */
  lemma PathsSpelled()
    ensures Path("dev_", Log(7)) == "dev_log_7" && Path("dev_", State("term")) == "dev_state_term"
    ensures Path("dev_", Snapshot(12)) == "dev_snap_12"
  {
    assert Decimal(7) == "7" && Decimal(12) == Decimal(1) + "2" && Decimal(1) == "1";
    assert Text(Log(7)) == "log_7" && Text(State("term")) == "state_term" && Text(Snapshot(12)) == "snap_12";
    assert "dev_" + "log_7" == "dev_log_7" && "dev_" + "state_term" == "dev_state_term";
    assert "dev_" + "snap_12" == "dev_snap_12";
  }

  function PowerOf10(k: nat): nat {
    if k == 0 then 1 else 10 * PowerOf10(k - 1)
  }

  lemma {:induction false} DecimalLength(n: nat, k: nat)
    requires n < PowerOf10(k) && k >= 1
    ensures |Decimal(n)| <= k
    decreases k
  {
    if n >= 10 {
      assert k >= 2;
      DecimalLength(n / 10, k - 1);
    }
  }

  /** A 64-bit index has at most 20 digits, so its name is never cut. */
  lemma IndexesFit(device: string, index: nat)
    requires index < U64
    ensures |Decimal(index)| <= 20
    ensures FitsPath(device, Log(index)) && FitsPath(device, Snapshot(index))
  {
    assert PowerOf10(5) == 100_000;
    assert PowerOf10(10) == 100_000 * PowerOf10(5) by { assert PowerOf10(8) == 1000 * PowerOf10(5); }
    assert PowerOf10(15) == 100_000 * PowerOf10(10) by { assert PowerOf10(13) == 1000 * PowerOf10(10); }
    assert PowerOf10(20) == 100_000 * PowerOf10(15) by { assert PowerOf10(18) == 1000 * PowerOf10(15); }
    DecimalLength(index, 20);
  }

  /** The keys a device cannot tell apart: state keys equal as far as there is room. */
  predicate SameName(device: string, a: Key, b: Key) {
    a == b || (a.State? && b.State? && Cut(Text(a), Room(device)) == Cut(Text(b), Room(device)))
  }

  predicate In64Bits(key: Key) {
    key.State? || key.index < U64
  }

  lemma PathIsCutText(device: string, key: Key)
    ensures Path(device, key) == Kept(device) + Cut(Text(key), Room(device))
  {
  }

  /** Two keys of one device get the same path if and only if they are equal, or are state keys
      that agree on all the characters there is room for. */
  lemma PathsCollideExactly(device: string, a: Key, b: Key)
    requires In64Bits(a) && In64Bits(b)
    ensures Path(device, a) == Path(device, b) <==> SameName(device, a, b)
  {
    var d, room := Kept(device), Room(device);
    PathIsCutText(device, a);
    PathIsCutText(device, b);
    if Path(device, a) == Path(device, b) {
      assert Path(device, a)[|d|..] == Cut(Text(a), room);
      assert Path(device, b)[|d|..] == Cut(Text(b), room);
      TextsDiffer(device, a, b);
    }
  }

  lemma TextsDiffer(device: string, a: Key, b: Key)
    requires In64Bits(a) && In64Bits(b)
    requires Cut(Text(a), Room(device)) == Cut(Text(b), Room(device))
    ensures SameName(device, a, b)
  {
    var ta, tb := Cut(Text(a), Room(device)), Cut(Text(b), Room(device));
    assert ta[0] == Text(a)[0] && tb[0] == Text(b)[0] && ta[1] == Text(a)[1] && tb[1] == Text(b)[1];
    if !a.State? {
      IndexesFit(device, a.index);
      if !b.State? {
        IndexesFit(device, b.index);
        var n := if a.Log? then 4 else 5;
        assert Text(a)[n..] == Decimal(a.index);
        assert a.Log? == b.Log? ==> Text(b)[n..] == Decimal(b.index);
        DecimalInjective(a.index, b.index);
      }
    }
  }

  /** Distinct keys whose names are not cut have distinct paths. */
  lemma PathsInjective(device: string, a: Key, b: Key)
    requires In64Bits(a) && In64Bits(b) && FitsPath(device, a) && FitsPath(device, b)
    requires Path(device, a) == Path(device, b)
    ensures a == b
  {
    PathsCollideExactly(device, a, b);
    if a.State? && b.State? {
      assert Text(a)[6..] == a.name && Text(b)[6..] == b.name;
    }
  }

  // ---- two devices ----------------------------------------------------------------------

  lemma {:induction false} DecimalIsDigits(n: nat, k: nat)
    requires k < |Decimal(n)|
    ensures Decimal(n)[k] in "0123456789"
    decreases n
  {
    if n >= 10 && k < |Decimal(n)| - 1 {
      DecimalIsDigits(n / 10, k);
    }
  }

  /** Past the first character only the name of a state key holds an 'l' or an 's'. */
  lemma NoKindInside(key: Key, k: nat)
    requires 1 <= k < |Text(key)| && (Text(key)[k] == 'l' || Text(key)[k] == 's')
    ensures key.State? && k >= 6
  {
    match key {
      case Log(index) =>
        if k >= 4 {
          DecimalIsDigits(index, k - 4);
        }
      case Snapshot(index) =>
        if k >= 5 {
          DecimalIsDigits(index, k - 5);
        }
      case State(_) =>
    }
  }

  /** Some key of one device has the path of some key of the other. */
  ghost predicate Share(d1: string, d2: string) {
    exists a, b :: In64Bits(a) && In64Bits(b) && Path(d1, a) == Path(d2, b)
  }

  /** What a caller can check before making two adapters over one store. */
  predicate Entangled(d1: string, d2: string) {
    var c1, c2 := Kept(d1), Kept(d2);
    c1 == c2 || c1 + "state_" <= c2 || c2 + "state_" <= c1
  }

  /** A path character by character: the prefix, then the key's text as far as there is room. */
  lemma PathAt(device: string, key: Key, k: nat)
    requires k < |Path(device, key)|
    ensures k < |Kept(device)| ==> Path(device, key)[k] == Kept(device)[k]
    ensures k >= |Kept(device)| ==>
              k - |Kept(device)| < |Text(key)| && Path(device, key)[k] == Text(key)[k - |Kept(device)|]
  {
  }

  lemma PathIsLonger(device: string, key: Key)
    ensures |Kept(device)| + 5 <= |Path(device, key)|
  {
  }

  lemma StartsAlike(d1: string, d2: string, a: Key, b: Key)
    requires |Kept(d1)| <= |Kept(d2)| && Path(d1, a) == Path(d2, b)
    ensures Kept(d1) <= Kept(d2)
  {
    hide Path, Kept;
    PathIsLonger(d1, a);
    PathIsLonger(d2, b);
    forall k | 0 <= k < |Kept(d1)|
      ensures Kept(d1)[k] == Kept(d2)[k]
    {
      PathAt(d1, a, k);
      PathAt(d2, b, k);
    }
  }

  lemma TextStarts(key: Key)
    ensures |Text(key)| >= 5 && (Text(key)[0] == 'l' || Text(key)[0] == 's')
    ensures key.State? ==> |Text(key)| >= 6 && forall k :: 0 <= k < 6 ==> Text(key)[k] == "state_"[k]
  {
  }

  lemma GoesOn(c1: string, c2: string, more: string)
    requires c1 <= c2 && |c1| + |more| <= |c2|
    requires forall k :: 0 <= k < |more| ==> c2[|c1| + k] == more[k]
    ensures c1 + more <= c2
  {
  }

  /** Two paths are equal only if the longer prefix goes on from the shorter into a state key. */
  lemma EqualPathsEntangle(d1: string, d2: string, a: Key, b: Key)
    requires |Kept(d1)| < |Kept(d2)| && Path(d1, a) == Path(d2, b)
    ensures Kept(d1) + "state_" <= Kept(d2) && a.State?
  {
    hide Path, Kept, Text;
    var n1, n2 := |Kept(d1)|, |Kept(d2)|;
    StartsAlike(d1, d2, a, b);
    PathIsLonger(d2, b);
    PathAt(d1, a, n2);
    PathAt(d2, b, n2);
    TextStarts(a);
    TextStarts(b);
    NoKindInside(a, n2 - n1);
    forall k | 0 <= k < 6
      ensures Kept(d2)[n1 + k] == "state_"[k]
    {
      PathAt(d1, a, n1 + k);
      PathAt(d2, b, n1 + k);
    }
    GoesOn(Kept(d1), Kept(d2), "state_");
  }

  /** A prefix that goes on into a state key meets that key, for every key of its own. */
  lemma EntangledPathsMeet(d1: string, d2: string, b: Key)
    requires Kept(d1) + "state_" <= Kept(d2)
    ensures Path(d1, State(Kept(d2)[|Kept(d1)| + 6..] + Text(b))) == Path(d2, b)
  {
    var x := Kept(d2)[|Kept(d1)| + 6..];
    Spelled(Kept(d1), Kept(d2), x, Text(b));
  }

  lemma Spelled(c1: string, c2: string, x: string, text: string)
    requires c1 + "state_" <= c2 && x == c2[|c1| + 6..]
    ensures c1 + ("state_" + (x + text)) == c2 + text
  {
  }

  /** Two devices over one store have a path in common if and only if their prefixes, cut to 63
      characters, are equal or one goes on from the other with "state_". */
  lemma PrefixesShareExactly(d1: string, d2: string)
    ensures Share(d1, d2) <==> Entangled(d1, d2)
  {
    hide Path, Kept, Text;
    if Share(d1, d2) {
      var a, b :| In64Bits(a) && In64Bits(b) && Path(d1, a) == Path(d2, b);
      if |Kept(d1)| < |Kept(d2)| {
        EqualPathsEntangle(d1, d2, a, b);
      } else if |Kept(d2)| < |Kept(d1)| {
        EqualPathsEntangle(d2, d1, b, a);
      } else {
        StartsAlike(d1, d2, a, b);
      }
    }
    if Kept(d1) == Kept(d2) {
      SamePrefix(d1, d2, Log(0));
      assert In64Bits(Log(0));
    } else if Kept(d1) + "state_" <= Kept(d2) {
      EntangledPathsMeet(d1, d2, Log(0));
      assert In64Bits(State(Kept(d2)[|Kept(d1)| + 6..] + Text(Log(0)))) && In64Bits(Log(0));
    } else if Kept(d2) + "state_" <= Kept(d1) {
      EntangledPathsMeet(d2, d1, Log(0));
      assert In64Bits(State(Kept(d1)[|Kept(d2)| + 6..] + Text(Log(0)))) && In64Bits(Log(0));
    }
  }

  lemma SamePrefix(d1: string, d2: string, key: Key)
    requires Kept(d1) == Kept(d2)
    ensures Path(d1, key) == Path(d2, key)
  {
  }

  /** Two devices, neither name cut, that write one file: state key "log_1" of one, log entry 1 of
      the other. */
  lemma DevicesCollide()
    ensures Path("a", State("log_1")) == Path("astate_", Log(1)) == "astate_log_1"
    ensures FitsPath("a", State("log_1")) && FitsPath("astate_", Log(1))
  {
    assert Decimal(1) == "1";
    assert Text(Log(1)) == "log_1" && Text(State("log_1")) == "state_log_1";
    assert "a" + "state_log_1" == "astate_log_1" && "astate_" + "log_1" == "astate_log_1";
  }
}
