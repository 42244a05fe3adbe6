/**
 util.c: MAC address text conversion and interface-type names.
 */
module Util {
  import opened Base
  import opened Text
  import opened Iw

  /**
   `mac_addr_n2a`: the six bytes as two-digit lower-case hex groups joined
   by ':', with no leading or trailing colon.
   */
  function MacToText(m: Mac): (text: string)
    ensures |text| == 17
    ensures forall i | 0 <= i < EthAlen :: text[3 * i..3 * i + 2] == HexPair(m[i])
    ensures forall i | 0 <= i < EthAlen - 1 :: text[3 * i + 2] == ':'
  {
    HexList(m, ':')
  }

  /** One colon-separated field of `mac_addr_a2n`: parsed as hex and kept only if it fits a byte. */
  function FieldByte(field: string): (r: Option<byte>)
    ensures r.Some? <==> ScanHex(field).Some? && ScanHex(field).value <= 255
    ensures r.Some? ==> r.value == ScanHex(field).value
  {
    match ScanHex(field)
    case None => None
    case Some(v) => if v > 255 then None else Some(v)
  }

  /**
   What `mac_addr_a2n` accepts: at least six ':'-separated fields, the
   first six of which each parse to a byte; fields after the sixth are never
   looked at. This is the declarative reading of the C loop, which
   MacAddrA2n below follows step by step.
   */
  function MacFromText(arg: string): (r: Option<Mac>)
    ensures r.Some? <==> |Split(arg, ':')| >= EthAlen
                         && forall i | 0 <= i < EthAlen :: FieldByte(Split(arg, ':')[i]).Some?
    ensures r.Some? ==> forall i | 0 <= i < EthAlen :: Some(r.value[i]) == FieldByte(Split(arg, ':')[i])
  {
    var fs := Split(arg, ':');
    if |fs| >= EthAlen && forall i | 0 <= i < EthAlen :: FieldByte(fs[i]).Some? then
      Some(seq(EthAlen, i requires 0 <= i < EthAlen => FieldByte(fs[i]).value))
    else
      None
  }

  /**
   The argument buffer after `mac_addr_a2n` has overwritten the first n
   colons in it with NUL (`*cp = 0`).
   */
  function CutColons(s: string, n: nat): (w: string)
    ensures |w| == |s|
    ensures forall k | 0 <= k < |s| :: w[k] == s[k] || (s[k] == ':' && w[k] == '\0')
  {
    if |s| == 0 then ""
    else
      var rest := if s[0] == ':' && n > 0 then CutColons(s[1..], n - 1) else CutColons(s[1..], n);
      var w := [if s[0] == ':' && n > 0 then '\0' else s[0]] + rest;
      assert forall k | 1 <= k < |s| :: w[k] == rest[k - 1] && s[k] == s[1..][k - 1];
      w
  }

  /**
   Once at least one colon is cut (or there is none), the C string the
   buffer holds is its first field.
   */
  lemma {:induction false} CutColonsKeepsFirstField(s: string, n: nat)
    requires n >= 1 || |Split(s, ':')| == 1
    ensures CText(CutColons(s, n)) == CText(A2nLeaves(s))
    ensures '\0' !in s ==> CText(CutColons(s, n)) == A2nLeaves(s)
  {
    FirstFieldOfCut(s, n);
    if '\0' !in s {
      assert '\0' !in A2nLeaves(s);
    }
  }

  lemma {:induction false} FirstFieldOfCut(s: string, n: nat)
    requires n >= 1 || |Split(s, ':')| == 1
    ensures CText(CutColons(s, n)) == CText(Split(s, ':')[0])
  {
    if |s| > 0 && s[0] != ':' {
      FirstFieldOfCut(s[1..], n);
      var first := Split(s[1..], ':')[0];
      assert Split(s, ':')[0] == [s[0]] + first;
      if s[0] != '\0' {
        assert ([s[0]] + first)[1..] == first;
      }
    }
  }

  /**
   What a string comparison sees in an argument that `mac_addr_a2n` has
   looked at: the text before its first ':', or all of it when it has none.
   */
  function A2nLeaves(arg: string): (t: string)
    ensures |t| <= |arg| && t == arg[..|t|] && ':' !in t
    ensures ':' !in arg ==> t == arg
  {
    SplitFirst(arg, ':');
    Split(arg, ':')[0]
  }

  /**
   `mac_addr_a2n` as written: for i = 0..5, cut the next field at ':', scan
   it as hex, reject it outside 0..255, store it, and stop early when no ':'
   follows; afterwards fail when the loop stopped before index 5. Returns 0
   or -1, the six bytes on success, and the argument buffer as the loop
   leaves it: some of its colons are now NUL, the first one always, so the
   caller's string has become the first field.
   */
  method MacAddrA2n(arg: string) returns (status: int, mac: seq<byte>, written: string)
    ensures status == 0 || status == -1
    ensures status == 0 <==> MacFromText(arg).Some?
    ensures status == 0 ==> mac == MacFromText(arg).value
    ensures |written| == |arg|
    ensures forall k | 0 <= k < |arg| :: written[k] == arg[k] || (arg[k] == ':' && written[k] == '\0')
    ensures CText(written) == CText(A2nLeaves(arg))
    ensures '\0' !in arg ==> CText(written) == A2nLeaves(arg)
  {
    var ok, cuts;
    ok, mac, cuts := ScanFields(Split(arg, ':'));
    written := CutColons(arg, cuts);
    CutColonsKeepsFirstField(arg, cuts);
    if ok {
      MacOfBytes(arg, mac);
      status := 0;
    } else {
      status := -1;
    }
  }

  /**
   The loop of `mac_addr_a2n` over the fields: the bytes it stores, whether
   it got through six of them, and how many colons it cut on the way (one
   per field that a ':' follows, including a field that then fails).
   */
  method ScanFields(fs: seq<string>) returns (ok: bool, mac: seq<byte>, cuts: nat)
    requires |fs| >= 1
    ensures ok <==> |fs| >= EthAlen && forall j | 0 <= j < EthAlen :: FieldByte(fs[j]).Some?
    ensures ok ==> |mac| == EthAlen && forall j | 0 <= j < EthAlen :: FieldByte(fs[j]) == Some(mac[j])
    ensures cuts >= 1 || |fs| == 1
  {
    mac := [];
    var i := 0;
    cuts := 0;
    while i < EthAlen
      invariant 0 <= i <= EthAlen
      invariant i < |fs|
      invariant |mac| == i
      invariant forall j | 0 <= j < i :: FieldByte(fs[j]) == Some(mac[j])
      invariant i > 0 ==> cuts >= 1 || |fs| == 1
    {
      if i < |fs| - 1 {
        cuts := cuts + 1;
      }
      var field := FieldByte(fs[i]);
      if field.None? {
        return false, mac, cuts;
      }
      mac := mac + [field.value];
      if i == |fs| - 1 {
        break;
      }
      i := i + 1;
    }
    ok := i >= EthAlen - 1;
    if ok {
      mac := mac[..EthAlen];
    }
  }

  /** Six leading fields whose bytes are those of m parse to m. */
  lemma MacOfBytes(arg: string, m: seq<byte>)
    requires |m| == EthAlen && |Split(arg, ':')| >= EthAlen
    requires forall j | 0 <= j < EthAlen :: FieldByte(Split(arg, ':')[j]) == Some(m[j])
    ensures MacFromText(arg) == Some(m)
  {
    var r := MacFromText(arg);
    assert r.Some?;
    assert |r.value| == EthAlen;
    assert forall j | 0 <= j < EthAlen :: r.value[j] == m[j];
    assert r.value == m;
  }

  /** Six leading fields that scan to the bytes of m parse to m. */
  lemma MacOfFields(arg: string, m: Mac)
    requires |Split(arg, ':')| >= EthAlen
    requires forall i | 0 <= i < EthAlen :: ScanHex(Split(arg, ':')[i]) == Some(m[i] as nat)
    ensures MacFromText(arg) == Some(m)
  {
    var fs := Split(arg, ':');
    forall i | 0 <= i < EthAlen ensures FieldByte(fs[i]) == Some(m[i]) {
      assert ScanHex(fs[i]) == Some(m[i] as nat);
    }
    var r := MacFromText(arg);
    assert r.Some?;
    assert forall i | 0 <= i < EthAlen :: r.value[i] == m[i];
    assert r.value == m;
  }

  /** Parsing the text `mac_addr_n2a` produces gives back the same six bytes. */
  lemma MacRoundTrip(m: Mac)
    ensures MacFromText(MacToText(m)) == Some(m)
  {
    HexListRoundTrip(m, ':');
    MacOfFields(MacToText(m), m);
  }

  /** Fields after the sixth are ignored: anything may follow a valid address after a ':'. */
  lemma MacIgnoresTrailingFields(m: Mac, tail: string)
    ensures MacFromText(MacToText(m) + ":" + tail) == Some(m)
  {
    var parts := seq(EthAlen, i requires 0 <= i < EthAlen => HexPair(m[i]));
    HexListIsJoin(m, ':');
    forall k | 0 <= k < |parts| ensures ':' !in parts[k] {
      assert IsHexDigit(parts[k][0]) && IsHexDigit(parts[k][1]);
    }
    SplitJoinThen(parts, tail, ':');
    var fs := Split(MacToText(m) + ":" + tail, ':');
    forall i | 0 <= i < EthAlen ensures ScanHex(fs[i]) == Some(m[i] as nat) {
      assert fs[i] == HexPair(m[i]);
    }
    MacOfFields(MacToText(m) + ":" + tail, m);
  }

  /** A word without ':' is a single field, so it is never an address. */
  lemma MacNeedsColons(w: string)
    requires ':' !in w
    ensures MacFromText(w).None?
  {
    assert w == Join([w], [':']);
    SplitJoin([w], ':');
  }

  /** In particular a word of decimal digits only, such as a frequency, is never an address. */
  lemma DecimalWordIsNoMac(w: string)
    requires forall i | 0 <= i < |w| :: IsDecimalDigit(w[i])
    ensures MacFromText(w).None?
  {
    assert ':' !in w by {
      forall i | 0 <= i < |w| ensures w[i] != ':' {
        assert IsDecimalDigit(w[i]);
      }
    }
    MacNeedsColons(w);
  }

  /** `NL80211_IFTYPE_MAX` in the nl80211 revision the tool was built against. */
  const IfTypeMax: nat := 7

  /** `enum nl80211_iftype`. */
  datatype IfType = Unspecified | Adhoc | Station | Ap | ApVlan | Wds | Monitor | MeshPoint

  function IfTypeValue(t: IfType): (n: nat)
    ensures n <= IfTypeMax
  {
    match t
    case Unspecified => 0
    case Adhoc => 1
    case Station => 2
    case Ap => 3
    case ApVlan => 4
    case Wds => 5
    case Monitor => 6
    case MeshPoint => 7
  }

  /** The `ifmodes` table, indexed by interface type. */
  const IfModes: seq<string> :=
    ["unspecified", "IBSS", "Station", "AP", "AP(VLAN)", "WDS", "Monitor", "mesh point"]

  /**
   `iftype_name`: the table entry for an in-range type, otherwise
   "Unknown mode (n)" with n in decimal.
   */
  function IftypeName(n: nat): (name: string)
    ensures n <= IfTypeMax ==> name == IfModes[n]
    ensures n > IfTypeMax ==> |name| > 14 && name[..14] == "Unknown mode ("
                              && name[|name| - 1] == ')'
                              && (forall i | 14 <= i < |name| - 1 :: IsDecimalDigit(name[i]))
                              && DecimalNumber(name[14..|name| - 1]) == n
  {
    if n <= IfTypeMax then IfModes[n]
    else
      var name := "Unknown mode (" + Decimal(n) + ")";
      assert name[14..|name| - 1] == Decimal(n);
      DecimalRoundTrip(n);
      name
  }
}
