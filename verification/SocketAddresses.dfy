/** Socket addresses: how they are read from their bytes, compared, and kept free of conflicts. */
module SocketAddresses {
  import opened RingBuffers

  const LINUX_AF_UNIX := 1
  const LINUX_AF_INET := 2
  const LINUX_AF_NETLINK := 16

  const FAMILY_SIZE := 2
  const SOCKADDR_IN_SIZE := 16
  const SOCKADDR_UN_SIZE := 110
  const SOCKADDR_NL_SIZE := 12

  // ---- the bytes of an address ----

  function LittleEndian(b: seq<Byte>): nat {
    if b == [] then 0 else b[0] + 256 * LittleEndian(b[1..])
  }

  function Family(b: seq<Byte>): nat
    requires |b| >= FAMILY_SIZE
  {
    LittleEndian(b[..2])
  }

  function InetPort(b: seq<Byte>): nat
    requires |b| >= SOCKADDR_IN_SIZE
  {
    LittleEndian(b[2..4])
  }

  function InetAddress(b: seq<Byte>): nat
    requires |b| >= SOCKADDR_IN_SIZE
  {
    LittleEndian(b[4..8])
  }

  function NetlinkPid(b: seq<Byte>): nat
    requires |b| >= SOCKADDR_NL_SIZE
  {
    LittleEndian(b[4..8])
  }

  function NetlinkGroups(b: seq<Byte>): nat
    requires |b| >= SOCKADDR_NL_SIZE
  {
    LittleEndian(b[8..12])
  }

  /** A number in the given count of bytes, the least significant first. */
  function Encode(n: nat, count: nat): (b: seq<Byte>)
    ensures |b| == count
    decreases count
  {
    if count == 0 then [] else [(n % 256) as Byte] + Encode(n / 256, count - 1)
  }

  /** The number below 256 to the power count that is encoded is read back. */
  lemma {:induction false} EncodeDecode(n: nat, count: nat)
    ensures n < Bound(count) ==> LittleEndian(Encode(n, count)) == n
    decreases count
  {
    if count > 0 {
      EncodeDecode(n / 256, count - 1);
      assert Encode(n, count)[1..] == Encode(n / 256, count - 1);
    }
  }

  function Bound(count: nat): (r: nat)
    ensures r > 0
  {
    if count == 0 then 1 else 256 * Bound(count - 1)
  }

  // ---- addresses and conflicts ----

  datatype Address =
    | Unbound
    | UnixPath(isAbstract: bool, path: seq<Byte>)
    | Inet(ip: nat, port: nat)
    | Netlink(pid: nat)

  function StripZeros(path: seq<Byte>): seq<Byte> {
    if path != [] && path[|path| - 1] == 0 then StripZeros(path[..|path| - 1]) else path
  }

  /** What is stripped is zeros at the end, and all of them. */
  lemma {:induction false} StripZerosMeaning(path: seq<Byte>)
    ensures var s := StripZeros(path);
      && s <= path && (s == [] || s[|s| - 1] != 0)
      && forall i | |s| <= i < |path| :: path[i] == 0
  {
    if path != [] && path[|path| - 1] == 0 {
      StripZerosMeaning(path[..|path| - 1]);
    }
  }

  /** The part of a path that is compared: an abstract name without its trailing NULs. */
  function Comparable(isAbstract: bool, path: seq<Byte>): seq<Byte> {
    if isAbstract then StripZeros(path) else path
  }

  /** Byte i of an abstract name, which goes on with NULs for ever. */
  function NameByte(path: seq<Byte>, i: nat): Byte {
    if i < |path| then path[i] else 0
  }

  /** Abstract names compare equal exactly if they differ in trailing NULs alone, other paths if they are the same. */
  lemma ComparableMeaning(p: seq<Byte>, q: seq<Byte>)
    ensures Comparable(true, p) == Comparable(true, q) <==> forall i: nat :: NameByte(p, i) == NameByte(q, i)
    ensures Comparable(false, p) == Comparable(false, q) <==> p == q
  {
    StripZerosMeaning(p);
    StripZerosMeaning(q);
    var s, t := StripZeros(p), StripZeros(q);
    assert forall i: nat :: NameByte(p, i) == NameByte(s, i) && NameByte(q, i) == NameByte(t, i);
    if forall i: nat :: NameByte(p, i) == NameByte(q, i) {
      StrippedWithin(s, t);
      StrippedWithin(t, s);
      assert forall i: nat | i < |s| :: s[i] == NameByte(s, i) && NameByte(t, i) == t[i];
    }
  }

  /** A name that does not end in a NUL is no longer than another one with the same bytes. */
  lemma StrippedWithin(s: seq<Byte>, t: seq<Byte>)
    requires s == [] || s[|s| - 1] != 0
    requires forall i: nat :: NameByte(s, i) == NameByte(t, i)
    ensures |s| <= |t|
  {
    if s != [] { assert NameByte(t, |s| - 1) != 0; }
  }

  /** Packets to this port of a host with this address, which is not 0, are meant for a socket bound to a. */
  predicate Receives(a: Address, ip: nat, port: nat) {
    a.Inet? && a.port == port && ip != 0 && (a.ip == 0 || a.ip == ip)
  }

  /** INET addresses conflict exactly if some packet is meant for both. */
  lemma InetConflict(a: Address, b: Address)
    requires a.Inet? && b.Inet?
    ensures Conflict(a, b) <==> exists ip: nat, port: nat :: Receives(a, ip, port) && Receives(b, ip, port)
  {
    if Conflict(a, b) {
      var ip := if a.ip != 0 then a.ip else if b.ip != 0 then b.ip else 1;
      assert Receives(a, ip, a.port) && Receives(b, ip, a.port);
    }
  }

  /** Two bound addresses that may not be in use together. */
  predicate Conflict(a: Address, b: Address) {
    match (a, b)
    case (UnixPath(x, p), UnixPath(y, q)) => x == y && Comparable(x, p) == Comparable(y, q)
    case (Inet(i, p), Inet(j, q)) => p == q && (i == j || i == 0 || j == 0)
    case (Netlink(p), Netlink(q)) => p == q && p != 0
    case _ => false
  }

  ghost predicate ConflictFree<S>(A: map<S, Address>) {
    forall s, t | s in A && t in A && s != t :: !Conflict(A[s], A[t])
  }

  lemma BindConflictFree<S>(A: map<S, Address>, s: S, a: Address)
    requires ConflictFree(A) && forall t | t in A && t != s :: !Conflict(A[t], a)
    ensures ConflictFree(A[s := a])
  {
    var A' := A[s := a];
    forall x, y | x in A' && y in A' && x != y
      ensures !Conflict(A'[x], A'[y])
    {
      assert Conflict(A'[x], A'[y]) <==> Conflict(A'[y], A'[x]);
    }
  }

  lemma FewerAddresses<S>(A: map<S, Address>, s: S)
    requires ConflictFree(A)
    ensures ConflictFree(A - {s})
  {
  }

  /** At most one socket is bound to a given UNIX name. */
  lemma OnlyMatch<S>(A: map<S, Address>, s: S, t: S, isAbstract: bool, path: seq<Byte>)
    requires ConflictFree(A) && s in A && t in A
    requires Conflict(A[s], UnixPath(isAbstract, path)) && Conflict(A[t], UnixPath(isAbstract, path))
    ensures s == t
  {
    assert Conflict(A[s], A[t]);
  }

  // ---- paths ----

  function TextLength(area: seq<Byte>): nat {
    if area == [] || area[0] == 0 then 0 else 1 + TextLength(area[1..])
  }

  /** How much of an address's path area is the path: an abstract name is all of it. */
  function PathLength(area: seq<Byte>): nat {
    if area != [] && area[0] == 0 then if |area| == 1 then 0 else |area|
    else TextLength(area)
  }

  method ComputeUnixAddressPathLength(area: seq<Byte>) returns (length: nat, isAbstract: bool)
    ensures length == PathLength(area) <= |area| && (isAbstract <==> area != [] && area[0] == 0)
    ensures isAbstract ==> length == if |area| == 1 then 0 else |area|
    ensures !isAbstract ==> 0 !in area[..length] && (length < |area| ==> area[length] == 0)
  {
    isAbstract := false;
    if area == [] {
      return 0, false;
    }
    if area[0] == 0 {
      return if |area| <= 1 then 0 else |area|, true;
    }
    length := 0;
    assert area[0..] == area;
    while length < |area| && area[length] != 0
      invariant length <= |area| && 0 !in area[..length]
      invariant length + TextLength(area[length..]) == TextLength(area)
    {
      assert area[length..][1..] == area[length + 1..];
      length := length + 1;
    }
  }

  /** The address that the bytes of a request name, for a socket of this domain; Unbound if they are malformed. */
  function Requested(domain: int, b: seq<Byte>): Address
    requires |b| >= FAMILY_SIZE
  {
    if domain == LINUX_AF_INET && |b| >= SOCKADDR_IN_SIZE then Inet(InetAddress(b), InetPort(b))
    else if domain == LINUX_AF_UNIX && FAMILY_SIZE < |b| <= SOCKADDR_UN_SIZE && 0 < PathLength(b[2..]) then
      UnixPath(b[2] == 0, b[2..][..PathLengthWithin(b[2..])])
    else if domain == LINUX_AF_NETLINK && |b| >= SOCKADDR_NL_SIZE then Netlink(NetlinkPid(b))
    else Unbound
  }

  /** The bytes of a request for an address; those of a netlink address also name groups. */
  function AddressBytes(a: Address, groups: nat): seq<Byte> {
    match a
    case Unbound => [0, 0]
    case UnixPath(_, path) => Encode(LINUX_AF_UNIX, 2) + path
    case Inet(ip, port) => Encode(LINUX_AF_INET, 2) + Encode(port, 2) + Encode(ip, 4) + seq(8, _ => 0)
    case Netlink(pid) => Encode(LINUX_AF_NETLINK, 2) + [0, 0] + Encode(pid, 4) + Encode(groups, 4)
  }

  /** A text without NULs, or a NUL and more, that fits into an address. */
  predicate GoodName(isAbstract: bool, path: seq<Byte>) {
    && 0 < |path| <= SOCKADDR_UN_SIZE - FAMILY_SIZE
    && if isAbstract then path[0] == 0 && |path| > 1 else 0 !in path
  }

  /** An address that is written to bytes is read back from them. */
  lemma InetRoundTrip(ip: nat, port: nat)
    requires ip < 0x1_0000_0000 && port < 0x1_0000
    ensures var b := AddressBytes(Inet(ip, port), 0);
      |b| == SOCKADDR_IN_SIZE && Family(b) == LINUX_AF_INET && Requested(LINUX_AF_INET, b) == Inet(ip, port)
  {
    hide Encode, LittleEndian;
    var b := AddressBytes(Inet(ip, port), 0);
    assert b[..2] == Encode(LINUX_AF_INET, 2) && b[2..4] == Encode(port, 2) && b[4..8] == Encode(ip, 4);
    assert Bound(2) == 0x1_0000 && Bound(4) == 0x1_0000_0000;
    EncodeDecode(LINUX_AF_INET, 2);
    EncodeDecode(port, 2);
    EncodeDecode(ip, 4);
  }

  lemma NetlinkRoundTrip(pid: nat, groups: nat)
    requires pid < 0x1_0000_0000 && groups < 0x1_0000_0000
    ensures var b := AddressBytes(Netlink(pid), groups);
      && |b| == SOCKADDR_NL_SIZE && Family(b) == LINUX_AF_NETLINK
      && Requested(LINUX_AF_NETLINK, b) == Netlink(pid) && NetlinkGroups(b) == groups
  {
    hide Encode, LittleEndian;
    var b := AddressBytes(Netlink(pid), groups);
    assert b[..2] == Encode(LINUX_AF_NETLINK, 2) && b[4..8] == Encode(pid, 4) && b[8..12] == Encode(groups, 4);
    assert Bound(2) == 0x1_0000 && Bound(4) == 0x1_0000_0000;
    EncodeDecode(LINUX_AF_NETLINK, 2);
    EncodeDecode(pid, 4);
    EncodeDecode(groups, 4);
  }

  lemma UnixRoundTrip(isAbstract: bool, path: seq<Byte>)
    requires GoodName(isAbstract, path)
    ensures var b := AddressBytes(UnixPath(isAbstract, path), 0);
      Family(b) == LINUX_AF_UNIX && Requested(LINUX_AF_UNIX, b) == UnixPath(isAbstract, path)
  {
    hide Encode, LittleEndian;
    var b := AddressBytes(UnixPath(isAbstract, path), 0);
    assert b[..2] == Encode(LINUX_AF_UNIX, 2) && b[2..] == path;
    assert Bound(2) == 0x1_0000;
    EncodeDecode(LINUX_AF_UNIX, 2);
    if !isAbstract { WholeText(path); }
    assert PathLength(path) == |path| && path[..|path|] == path;
  }

  lemma {:induction false} WholeText(path: seq<Byte>)
    requires 0 !in path
    ensures TextLength(path) == |path|
  {
    if path != [] {
      assert forall i | 0 <= i < |path[1..]| :: path[1..][i] == path[i + 1];
      WholeText(path[1..]);
    }
  }

  function PathLengthWithin(area: seq<Byte>): (n: nat)
    ensures n == PathLength(area) <= |area|
  {
    TextLengthWithin(area);
    PathLength(area)
  }

  lemma {:induction false} TextLengthWithin(area: seq<Byte>)
    ensures TextLength(area) <= |area|
  {
    if area != [] && area[0] != 0 {
      TextLengthWithin(area[1..]);
    }
  }

  method GetComparableUnixPathLength(path: seq<Byte>, isAbstract: bool) returns (length: nat)
    ensures length <= |path| && path[..length] == Comparable(isAbstract, path)
  {
    length := |path|;
    assert path[..length] == path;
    if !isAbstract {
      return;
    }
    while length > 0 && path[length - 1] == 0
      invariant length <= |path| && StripZeros(path[..length]) == StripZeros(path)
    {
      assert path[..length][..length - 1] == path[..length - 1];
      length := length - 1;
    }
  }

  method AreUnixPathsEqual(left: seq<Byte>, right: seq<Byte>, isAbstract: bool) returns (equal: bool)
    ensures equal <==> Comparable(isAbstract, left) == Comparable(isAbstract, right)
  {
    var leftLength := GetComparableUnixPathLength(left, isAbstract);
    var rightLength := GetComparableUnixPathLength(right, isAbstract);
    if leftLength != rightLength {
      return false;
    }
    ghost var l, r := left[..leftLength], right[..rightLength];
    var i := 0;
    while i < leftLength
      invariant 0 <= i <= leftLength && l[..i] == r[..i]
    {
      if left[i] != right[i] {
        assert l[i] != r[i];
        return false;
      }
      assert l[..i + 1] == l[..i] + [l[i]] && r[..i + 1] == r[..i] + [r[i]];
      i := i + 1;
    }
    assert l[..i] == l && r[..i] == r;
    return true;
  }
}
