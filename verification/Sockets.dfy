/** The socket half of the inter-process communication manager. */
module Sockets {
  import opened Common
  import opened Errors
  import opened RingBuffers
  import opened SocketAddresses
  import opened SocketLinks

  const LINUX_SOCK_STREAM := 1
  const LINUX_SOCK_DGRAM := 2
  const LINUX_SOCK_RAW := 3
  const LINUX_SOCK_SEQPACKET := 5
  const SOCK_TYPES := 16              // the type is the low four bits

  const SOMAXCONN := 4096
  const EPHEMERAL_START := 49152
  const EPHEMERAL_END := 65535
  const SHUT_RD := 0
  const SHUT_WR := 1
  const SHUT_RDWR := 2
  const SOCKET_BUFFER_CAPACITY := 65536
  const MAX_OPEN_FILES := 256
  const MAX_TRACKED_SOCKETS := 32 * MAX_OPEN_FILES

  /** A process, as far as sockets go: the socket each open descriptor leads to, if any. */
  class Process {
    var files: seq<Socket?>
  }

  predicate IsStream(kind: int) {
    kind == LINUX_SOCK_STREAM || kind == LINUX_SOCK_SEQPACKET
  }

  class Socket {
    const domain: int
    const kind: int
    const protocol: int
    const owner: Process
    const ring: RingBuffer?       // the receive buffer of a UNIX socket
    var fd: int
    var isBound: bool
    var isListening: bool
    var shutRead: bool
    var shutWrite: bool
    // UNIX
    var path: seq<Byte>
    var isAbstract: bool
    var capacity: nat
    var pending: seq<Socket>
    var peer: Socket?
    // INET and netlink
    var localIp: nat
    var localPort: nat
    var localPid: nat
    var localGroups: nat
    var remotePid: nat
    var remoteGroups: nat
    const remoteIp: nat := 0      // no operation sets the remote address of an INET socket
    const remotePort: nat := 0

    constructor (domain: int, kind: int, protocol: int, owner: Process, fd: int)
      ensures this.domain == domain && this.kind == kind && this.protocol == protocol
      ensures this.owner == owner && this.fd == fd && !isBound && !shutRead && !shutWrite
      ensures Link() == SocketLinks.Link(domain == LINUX_AF_UNIX, false, 0, [], None)
      ensures BoundTo() == Unbound
      ensures domain != LINUX_AF_UNIX ==> ring == null
      ensures domain == LINUX_AF_UNIX ==>
        && ring != null && fresh(ring) && fresh(ring.data) && ring.Valid() && ring.data.Length == SOCKET_BUFFER_CAPACITY
        && ring.accepted == []
    {
      this.domain, this.kind, this.protocol, this.owner, this.fd := domain, kind, protocol, owner, fd;
      isBound, isListening, shutRead, shutWrite := false, false, false, false;
      path, isAbstract, capacity, pending, peer := [], false, 0, [], null;
      localIp, localPort, localPid, localGroups, remotePid, remoteGroups := 0, 0, 0, 0, 0, 0;
      if domain == LINUX_AF_UNIX {
        ring := new RingBuffer(SOCKET_BUFFER_CAPACITY);
      } else {
        ring := null;
      }
    }

    predicate Connected()
      reads this
    {
      if domain == LINUX_AF_UNIX then peer != null else remoteIp != 0 || remotePort != 0
    }

    ghost function Link(): SocketLinks.Link<Socket>
      reads this
    {
      SocketLinks.Link(domain == LINUX_AF_UNIX, isListening, capacity, pending,
                       ToOption(peer))
    }

    ghost function BoundTo(): Address
      reads this
    {
      if !isBound then Unbound
      else if domain == LINUX_AF_UNIX then UnixPath(isAbstract, path)
      else if domain == LINUX_AF_INET then Inet(localIp, localPort)
      else Netlink(localPid)
    }
  }

  /** Every UNIX socket has a sound receive buffer of its own. */
  ghost predicate Buffers(sockets: seq<Socket>)
    reads set s | s in sockets :: s.ring
    reads set s | s in sockets && s.ring != null :: s.ring.data
  {
    && (forall s | s in sockets :: s.domain in {LINUX_AF_UNIX, LINUX_AF_INET, LINUX_AF_NETLINK})
    && (forall s | s in sockets :: s.ring != null <==> s.domain == LINUX_AF_UNIX)
    && (forall s | s in sockets && s.ring != null :: s.ring.Valid() && s.ring.data.Length == SOCKET_BUFFER_CAPACITY)
    && (forall s, t | s in sockets && t in sockets && s != t && s.ring != null && t.ring != null ::
          s.ring != t.ring && s.ring.data != t.ring.data)
  }

  function ToOption(p: Socket?): Option<Socket> {
    if p == null then None else Some(p as Socket)
  }

  /** An address as sockets of this domain have it. */
  ghost predicate OfDomain(a: Address, domain: int) {
    if domain == LINUX_AF_UNIX then a.UnixPath? else if domain == LINUX_AF_INET then a.Inet? else a.Netlink?
  }

  /** The backlog a listen request is granted. */
  function Clamp(backlog: int): (granted: nat)
    ensures granted <= SOMAXCONN
    ensures granted < backlog ==> granted == SOMAXCONN
    ensures granted > backlog ==> granted == 0
  {
    if backlog < 0 then 0 else if backlog > SOMAXCONN then SOMAXCONN else backlog
  }

  lemma BuffersGrow(sockets: seq<Socket>, s: Socket)
    requires Buffers(sockets) && s.domain in {LINUX_AF_UNIX, LINUX_AF_INET, LINUX_AF_NETLINK}
    requires s.ring != null <==> s.domain == LINUX_AF_UNIX
    requires s.ring != null ==> s.ring.Valid() && s.ring.data.Length == SOCKET_BUFFER_CAPACITY
    requires s.ring != null ==>
      forall t | t in sockets && t.ring != null :: s.ring != t.ring && s.ring.data != t.ring.data
    ensures Buffers(sockets + [s])
  {
  }

  /** The first socket of the list with this owner and descriptor. */
  ghost function Named(sockets: seq<Socket>, owner: Process?, fd: int): Socket?
    reads sockets
  {
    if sockets == [] then null
    else if sockets[0].owner == owner && sockets[0].fd == fd then sockets[0]
    else Named(sockets[1..], owner, fd)
  }

  /** No tracked socket has this owner and descriptor, or it is the first that does. */
  lemma {:induction false} NamedFirst(sockets: seq<Socket>, owner: Process?, fd: int)
    ensures var s := Named(sockets, owner, fd);
      if s == null then forall t | t in sockets :: t.owner != owner || t.fd != fd
      else exists k: nat | k < |sockets| ::
        && sockets[k] == s && s.owner == owner && s.fd == fd
        && forall j | 0 <= j < k :: sockets[j].owner != owner || sockets[j].fd != fd
  {
    if sockets != [] {
      var rest := sockets[1..];
      NamedFirst(rest, owner, fd);
      assert sockets == [sockets[0]] + rest;
      var s := Named(rest, owner, fd);
      if s != null && Named(sockets, owner, fd) == s && sockets[0] != s {
        var k: nat :| k < |rest| && rest[k] == s
                      && forall j | 0 <= j < k :: rest[j].owner != owner || rest[j].fd != fd;
        assert sockets[k + 1] == s;
        assert forall j | 1 <= j < k + 1 :: sockets[j] == rest[j - 1];
      }
    }
  }

  /** No descriptor below the bound, other than fd, leads to s. */
  predicate NoneLeads(files: seq<Socket?>, s: Socket, fd: int, bound: int) {
    forall d | 0 <= d < |files| && d < bound && d != fd :: files[d] != s
  }

  class SocketManager {
    var sockets: seq<Socket>

    ghost function Links(): SocketLinks.Links<Socket>
      reads this, sockets
    {
      map s | s in sockets :: s.Link()
    }

    ghost function Addresses(): map<Socket, Address>
      reads this, sockets
    {
      map s | s in sockets :: s.BoundTo()
    }

    lemma Views()
      ensures forall s | s in sockets :: s in Links() && Links()[s] == s.Link()
      ensures forall s | s in sockets :: s in Addresses() && Addresses()[s] == s.BoundTo()
      ensures forall s | s in Links() :: s in sockets
      ensures forall s | s in Addresses() :: s in sockets
    {
    }

    /** One socket was added, none was written. */
    twostate lemma OneAdded(s: Socket)
      requires sockets == old(sockets) + [s]
      requires forall t | t in old(sockets) :: unchanged(t)
      ensures Links() == old(Links())[s := s.Link()]
      ensures Addresses() == old(Addresses())[s := s.BoundTo()]
    {
    }

    /** Only one socket was written. */
    twostate lemma OneWritten(s: Socket)
      requires sockets == old(sockets) && s in sockets && Buffers(old(sockets))
      requires forall t | t in sockets && t != s :: unchanged(t)
      ensures Links() == old(Links())[s := s.Link()]
      ensures Addresses() == old(Addresses())[s := s.BoundTo()]
      ensures s.Link() == old(s.Link()) ==> Links() == old(Links())
      ensures s.BoundTo() == old(s.BoundTo()) ==> Addresses() == old(Addresses())
    {
    }

    ghost predicate Valid()
      reads this, sockets
      reads set s | s in sockets :: s.ring
      reads set s | s in sockets && s.ring != null :: s.ring.data
    {
      && NoDuplicates(sockets) && |sockets| <= MAX_TRACKED_SOCKETS && Buffers(sockets)
      && Linked(Links()) && ConflictFree(Addresses())
    }

    constructor ()
      ensures Valid() && sockets == []
    {
      sockets := [];
    }

    method FindSocket(owner: Process, fd: int) returns (s: Socket?)
      ensures s == Named(sockets, owner, fd)
      ensures s != null ==> s in sockets && s.owner == owner && s.fd == fd
      ensures s == null ==> forall t | t in sockets :: t.owner != owner || t.fd != fd
    {
      assert sockets[0..] == sockets;
      NamedFirst(sockets, owner, fd);
      var i := 0;
      while i < |sockets|
        invariant 0 <= i <= |sockets| && Named(sockets[i..], owner, fd) == Named(sockets, owner, fd)
      {
        assert sockets[i..][1..] == sockets[i + 1..];
        if sockets[i].owner == owner && sockets[i].fd == fd {
          return sockets[i];
        }
        i := i + 1;
      }
      return null;
    }

    /** A new unbound, unconnected socket, or an error. */
    method CreateSocket(domain: int, type_: int, protocol: int, owner: Process?, fd: int)
      returns (s: Socket?, error: int)
      requires Valid()
      modifies this
      ensures Valid()
      ensures error == SocketError(domain, type_, owner, fd, |old(sockets)|)
      ensures s == null <==> error != 0
      ensures s == null ==> sockets == old(sockets) && Links() == old(Links()) && Addresses() == old(Addresses())
      ensures s != null ==>
        && fresh(s) && sockets == old(sockets) + [s]
        && s.domain == domain && s.kind == type_ % SOCK_TYPES && s.owner == owner && s.fd == fd
        && s.protocol == protocol && !s.shutRead && !s.shutWrite
        && Links() == Create(old(Links()), s, domain == LINUX_AF_UNIX)
        && Addresses() == old(Addresses())[s := Unbound]
        && (s.ring != null <==> domain == LINUX_AF_UNIX) && (s.ring != null ==> s.ring.accepted == [])
    {
      hide NoDuplicates, Linked, ConflictFree, Buffers, SocketManager.Links, SocketManager.Addresses;
      if owner == null || fd < 0 {
        return null, EINVAL;
      }
      if |sockets| >= MAX_TRACKED_SOCKETS {
        return null, EMFILE;
      }
      if domain != LINUX_AF_UNIX && domain != LINUX_AF_INET && domain != LINUX_AF_NETLINK {
        return null, EAFNOSUPPORT;
      }
      var kind := type_ % SOCK_TYPES;
      if && kind != LINUX_SOCK_STREAM && kind != LINUX_SOCK_DGRAM
         && kind != LINUX_SOCK_RAW && kind != LINUX_SOCK_SEQPACKET {
        return null, ESOCKTNOSUPPORT;
      }
      if domain == LINUX_AF_NETLINK && kind != LINUX_SOCK_DGRAM && kind != LINUX_SOCK_RAW {
        return null, ESOCKTNOSUPPORT;
      }
      var new_ := new Socket(domain, kind, protocol, owner, fd);
      Track(new_);
      return new_, 0;
    }

    /** Add a new socket at the end of the list. */
    method Track(s: Socket)
      requires Valid() && |sockets| < MAX_TRACKED_SOCKETS && s !in sockets
      requires s.BoundTo() == Unbound
      requires s.Link() == SocketLinks.Link(s.domain == LINUX_AF_UNIX, false, 0, [], None)
      requires s.domain in {LINUX_AF_UNIX, LINUX_AF_INET, LINUX_AF_NETLINK}
      requires s.ring != null <==> s.domain == LINUX_AF_UNIX
      requires s.ring != null ==> s.ring.Valid() && s.ring.data.Length == SOCKET_BUFFER_CAPACITY
      requires s.ring != null ==>
        forall t | t in sockets && t.ring != null :: s.ring != t.ring && s.ring.data != t.ring.data
      modifies this
      ensures Valid() && sockets == old(sockets) + [s]
      ensures Links() == Create(old(Links()), s, s.domain == LINUX_AF_UNIX)
      ensures Addresses() == old(Addresses())[s := Unbound]
    {
      hide Linked, ConflictFree, Buffers, SocketManager.Links, SocketManager.Addresses;
      Views();
      CreateLinked(Links(), s, s.domain == LINUX_AF_UNIX);
      BindConflictFree(Addresses(), s, Unbound);
      BuffersGrow(sockets, s);
      sockets := sockets + [s];
      OneAdded(s);
    }

    /** A socket other than s whose address may not be in use together with the one asked for. */
    method FindConflict(s: Socket, a: Address) returns (t: Socket?)
      requires s in sockets && Buffers(sockets)
      requires OfDomain(a, s.domain)
      ensures t == null ==> forall u | u in sockets && u != s :: !Conflict(u.BoundTo(), a)
      ensures t != null ==> t in sockets && t != s && Conflict(t.BoundTo(), a)
    {
      var i := 0;
      while i < |sockets|
        invariant 0 <= i <= |sockets|
        invariant forall j | 0 <= j < i && sockets[j] != s :: !Conflict(sockets[j].BoundTo(), a)
      {
        var u := sockets[i];
        if u != s && u.domain == s.domain && u.isBound {
          match a {
            case UnixPath(isAbstract, path) =>
              if u.isAbstract == isAbstract {
                var equal := AreUnixPathsEqual(u.path, path, isAbstract);
                if equal {
                  return u;
                }
              }
            case Inet(ip, port) =>
              if u.localPort == port && (u.localIp == 0 || ip == 0 || u.localIp == ip) {
                return u;
              }
            case Netlink(pid) =>
              if pid != 0 && u.localPid == pid {
                return u;
              }
          }
        }
        i := i + 1;
      }
      return null;
    }

    /** Bind the socket of a descriptor to an address. */
    method BindSocket(owner: Process?, fd: int, address: Option<seq<Byte>>) returns (code: int, ghost s: Socket?)
      requires Valid()
      modifies sockets`isBound, sockets`path, sockets`isAbstract, sockets`localIp, sockets`localPort
      modifies sockets`localPid, sockets`localGroups
      ensures Valid() && Links() == old(Links())
      ensures code != 0 ==> Addresses() == old(Addresses())
      // s is the socket of a request that passes every check up to its address
      ensures var early := BindError(owner, fd, address, old(Named(sockets, owner, fd)));
        && s == (if early == 0 then old(Named(sockets, owner, fd)) else null)
        && (early != 0 ==> code == early)
      // such a request is refused exactly if another socket's address conflicts
      ensures s != null ==> var a := Requested(s.domain, address.value);
        && s in sockets && a != Unbound
        && code == (if exists t | t in sockets && t != s :: Conflict(old(Addresses())[t], a) then EADDRINUSE else 0)
        && (code == 0 ==> Addresses() == old(Addresses())[s := a])
        && (code == 0 && a.Netlink? ==> s.localGroups == NetlinkGroups(address.value))
    {
      hide NoDuplicates, Linked, ConflictFree, Buffers, Conflict, Requested;
      hide SocketManager.Links, SocketManager.Addresses;
      hide Named, LittleEndian;
      s := null;
      if owner == null || fd < 0 || address.None? || |address.value| < FAMILY_SIZE {
        return EINVAL, s;
      }
      var entry := FindSocket(owner, fd);
      if entry == null {
        return ENOTSOCK, s;
      }
      var requested;
      code, requested := ReadAddress(entry.domain, address.value);
      if code != 0 {
        return code, s;
      }
      s := entry;
      RequestedDomain(entry.domain, address.value);
      Views();
      var other := FindConflict(entry, requested);
      if other != null {
        return EADDRINUSE, s;
      }
      SetAddress(entry, requested, address.value);
      return 0, s;
    }

    /** The address a request names, for a socket of the given domain. */
    static method ReadAddress(domain: int, b: seq<Byte>) returns (code: int, a: Address)
      requires |b| >= FAMILY_SIZE
      ensures code == AddressError(domain, b) && a == if code == 0 then Requested(domain, b) else Unbound
    {
      hide PathLength, LittleEndian;
      if Family(b) != domain {
        return EAFNOSUPPORT, Unbound;
      }
      if domain == LINUX_AF_INET {
        if |b| < SOCKADDR_IN_SIZE {
          return EINVAL, Unbound;
        }
        return 0, Inet(InetAddress(b), InetPort(b));
      }
      if domain == LINUX_AF_UNIX {
        if |b| <= FAMILY_SIZE {
          return EINVAL, Unbound;
        }
        if |b| > SOCKADDR_UN_SIZE {
          return ENAMETOOLONG, Unbound;
        }
        var length, isAbstract := ComputeUnixAddressPathLength(b[2..]);
        if length == 0 {
          return EINVAL, Unbound;
        }
        return 0, UnixPath(isAbstract, b[2..][..length]);
      }
      if domain == LINUX_AF_NETLINK {
        if |b| < SOCKADDR_NL_SIZE {
          return EINVAL, Unbound;
        }
        return 0, Netlink(NetlinkPid(b));
      }
      return EINVAL, Unbound;
    }

    lemma RequestedDomain(domain: int, b: seq<Byte>)
      requires |b| >= FAMILY_SIZE && Requested(domain, b) != Unbound
      ensures var a := Requested(domain, b);
        && OfDomain(a, domain)
        && (a.Netlink? ==> |b| >= SOCKADDR_NL_SIZE)
    {
    }

    /** Record the address of a socket. */
    method SetAddress(s: Socket, a: Address, b: seq<Byte>)
      requires Valid() && s in sockets
      requires OfDomain(a, s.domain)
      requires forall u | u in sockets && u != s :: !Conflict(u.BoundTo(), a)
      requires a.Netlink? ==> |b| >= SOCKADDR_NL_SIZE
      modifies s`isBound, s`path, s`isAbstract, s`localIp, s`localPort, s`localPid, s`localGroups
      ensures Valid() && Links() == old(Links()) && Addresses() == old(Addresses())[s := a]
      ensures if a.Netlink? then s.localGroups == NetlinkGroups(b) else s.localGroups == old(s.localGroups)
    {
      hide Linked, ConflictFree, Buffers, NoDuplicates, Conflict, SocketManager.Links, SocketManager.Addresses;
      Views();
      BindConflictFree(Addresses(), s, a);
      match a {
        case UnixPath(isAbstract, path) => s.path, s.isAbstract := path, isAbstract;
        case Inet(ip, port) => s.localIp, s.localPort := ip, port;
        case Netlink(pid) => s.localPid, s.localGroups := pid, NetlinkGroups(b);
      }
      s.isBound := true;
      OneWritten(s);
    }

    // ---- writing one socket's links ----

    method SetPeer(s: Socket, p: Socket?)
      requires s in sockets && Buffers(sockets)
      modifies s`peer
      ensures Buffers(sockets) && Addresses() == old(Addresses())
      ensures Links() == old(Links())[s := old(s.Link()).(peer := ToOption(p))] && s.peer == p
    {
      hide Buffers, SocketManager.Links, SocketManager.Addresses;
      s.peer := p;
      OneWritten(s);
    }

    method SetPending(s: Socket, q: seq<Socket>)
      requires s in sockets && Buffers(sockets)
      modifies s`pending
      ensures Buffers(sockets) && Addresses() == old(Addresses())
      ensures Links() == old(Links())[s := old(s.Link()).(pending := q)] && s.pending == q
    {
      hide Buffers, SocketManager.Links, SocketManager.Addresses;
      s.pending := q;
      OneWritten(s);
    }

    method SetListening(s: Socket, capacity: nat, q: seq<Socket>)
      requires s in sockets && Buffers(sockets)
      modifies s`isListening, s`capacity, s`pending
      ensures Buffers(sockets) && Addresses() == old(Addresses())
      ensures Links() == old(Links())[s := old(s.Link()).(listening := true, capacity := capacity, pending := q)]
      ensures s.isListening && s.capacity == capacity && s.pending == q
    {
      hide Buffers, SocketManager.Links, SocketManager.Addresses;
      s.isListening, s.capacity, s.pending := true, capacity, q;
      OneWritten(s);
    }

    /** A bound INET socket other than s uses this port. */
    ghost predicate PortUsed(s: Socket, port: nat)
      reads this, sockets
    {
      exists u | u in sockets :: u != s && u.domain == LINUX_AF_INET && u.isBound && u.localPort == port
    }

    /** The lowest port of the ephemeral range that is free. */
    ghost predicate LowestFree(s: Socket, port: nat)
      reads this, sockets
    {
      && EPHEMERAL_START <= port <= EPHEMERAL_END && !PortUsed(s, port)
      && forall p: nat | EPHEMERAL_START <= p < port :: PortUsed(s, p)
    }

    ghost predicate PortFree(s: Socket)
      reads this, sockets
    {
      exists p: nat :: LowestFree(s, p)
    }

    /** The lowest free port, or 0 if there is none. */
    method FindEphemeralPort(s: Socket) returns (port: nat)
      ensures port != 0 ==> LowestFree(s, port)
      ensures port == 0 ==> forall p: nat :: !LowestFree(s, p)
    {
      hide SocketManager.PortUsed;
      port := EPHEMERAL_START;
      while port <= EPHEMERAL_END
        invariant EPHEMERAL_START <= port <= EPHEMERAL_END + 1
        invariant forall p: nat | EPHEMERAL_START <= p < port :: PortUsed(s, p)
      {
        var inUse := IsPortInUse(s, port);
        if !inUse {
          return;
        }
        port := port + 1;
      }
      port := 0;
    }

    method IsPortInUse(s: Socket, port: nat) returns (inUse: bool)
      ensures inUse == PortUsed(s, port)
    {
      var i := 0;
      while i < |sockets|
        invariant 0 <= i <= |sockets|
        invariant forall j | 0 <= j < i && sockets[j] != s && sockets[j].domain == LINUX_AF_INET ::
            sockets[j].isBound ==> sockets[j].localPort != port
      {
        var u := sockets[i];
        if u != s && u.domain == LINUX_AF_INET && u.isBound && u.localPort == port {
          return true;
        }
        i := i + 1;
      }
      return false;
    }

    /** Make a socket listen; an unbound INET socket gets the lowest free ephemeral port first. */
    method ListenSocket(owner: Process?, fd: int, backlog: int) returns (code: int, ghost s: Socket?)
      requires Valid()
      modifies sockets`isBound, sockets`path, sockets`isAbstract, sockets`localIp, sockets`localPort
      modifies sockets`localPid, sockets`localGroups, sockets`isListening, sockets`capacity, sockets`pending
      ensures Valid()
      // s is the socket of a request that passes the checks common to all domains
      ensures var early := ListenError(owner, fd, old(Named(sockets, owner, fd)));
        && s == (if early == 0 then old(Named(sockets, owner, fd)) else null)
        && (early != 0 ==> code == early)
      ensures s != null ==>
        s in sockets &&
        code == if s.domain == LINUX_AF_INET then if old(s.isBound || PortFree(s)) then 0 else EADDRINUSE
                else if s.domain == LINUX_AF_UNIX then if old(s.isBound) then 0 else EINVAL
                else EOPNOTSUPP
      ensures code != 0 ==> Links() == old(Links()) && Addresses() == old(Addresses())
      ensures code == 0 ==> s != null && Links() == Listen(old(Links()), s, Clamp(backlog))
      // a UNIX socket keeps as many of the oldest pending clients as the new backlog holds
      ensures code == 0 ==>
        && s.isListening
        && (if s.domain == LINUX_AF_UNIX
            then s.capacity == Clamp(backlog) && s.pending == old(s.pending)[..Smaller(|old(s.pending)|, s.capacity)]
            else s.capacity == old(s.capacity) && s.pending == old(s.pending))
        && forall t | t in sockets && t != s ::
             t.isListening == old(t.isListening) && t.capacity == old(t.capacity) && t.pending == old(t.pending)
      ensures code == 0 && old(s.isBound) ==> Addresses() == old(Addresses())
      ensures code == 0 && !old(s.isBound) ==> exists port: nat ::
        old(LowestFree(s, port)) && Addresses() == old(Addresses())[s := Inet(0, port)]
    {
      hide NoDuplicates, Linked, ConflictFree, Buffers, Conflict, SocketManager.Links, SocketManager.Addresses;
      hide SocketManager.PortUsed, SocketManager.LowestFree, SocketManager.PortFree;
      s := null;
      if owner == null || fd < 0 {
        return EINVAL, s;
      }
      var entry := FindSocket(owner, fd);
      if entry == null {
        return ENOTSOCK, s;
      }
      if !IsStream(entry.kind) {
        return EOPNOTSUPP, s;
      }
      s := entry;
      if entry.domain == LINUX_AF_INET {
        code := ListenInet(entry, Clamp(backlog));
      } else if entry.domain == LINUX_AF_UNIX {
        if !entry.isBound {
          return EINVAL, s;
        }
        ListenUnix(entry, Clamp(backlog));
        code := 0;
      } else {
        code := EOPNOTSUPP;
      }
    }

    method ListenUnix(s: Socket, backlog: nat)
      requires Valid() && s in sockets && s.domain == LINUX_AF_UNIX
      modifies s`isListening, s`capacity, s`pending
      ensures Valid() && Links() == Listen(old(Links()), s, backlog) && Addresses() == old(Addresses())
      ensures s.isListening && s.capacity == backlog
      ensures s.pending == old(s.pending)[..Smaller(|old(s.pending)|, backlog)]
    {
      hide NoDuplicates, Linked, ConflictFree, Buffers, SocketManager.Links, SocketManager.Addresses;
      Views();
      ListenLinked(Links(), s, backlog);
      if backlog != s.capacity {
        var kept := Smaller(|s.pending|, backlog);
        assert |s.pending| <= backlog ==> s.pending[..kept] == s.pending;
        SetListening(s, backlog, s.pending[..kept]);
      } else {
        QueueFits(Links(), s);
        SetListening(s, backlog, s.pending);
      }
    }

    lemma QueueFits(L: SocketLinks.Links<Socket>, s: Socket)
      requires Linked(L) && s in L
      ensures |L[s].pending| <= L[s].capacity
    {
    }

    /** An unused port conflicts with no bound address. */
    lemma OnlyInetPorts(s: Socket, port: nat)
      requires Buffers(sockets)
      requires !PortUsed(s, port)
      ensures forall u | u in sockets && u != s :: !Conflict(u.BoundTo(), Inet(0, port))
    {
    }

    method ListenInet(s: Socket, backlog: nat) returns (code: int)
      requires Valid() && s in sockets && s.domain == LINUX_AF_INET
      modifies s`isBound, s`path, s`isAbstract, s`localIp, s`localPort
      modifies s`localPid, s`localGroups, s`isListening, s`capacity, s`pending
      ensures Valid()
      ensures code == if old(s.isBound || PortFree(s)) then 0 else EADDRINUSE
      ensures code != 0 ==> Links() == old(Links()) && Addresses() == old(Addresses())
      ensures code == 0 ==> Links() == Listen(old(Links()), s, backlog)
      ensures code == 0 ==> s.isListening && s.capacity == old(s.capacity) && s.pending == old(s.pending)
      ensures code == 0 && old(s.isBound) ==> Addresses() == old(Addresses())
      ensures code == 0 && !old(s.isBound) ==> exists port: nat ::
        old(LowestFree(s, port)) && Addresses() == old(Addresses())[s := Inet(0, port)]
    {
      hide NoDuplicates, Linked, ConflictFree, Buffers, Conflict;
      hide SocketManager.Links, SocketManager.Addresses, SocketManager.LowestFree, SocketManager.PortFree;
      Views();
      ListenLinked(Links(), s, backlog);
      if !s.isBound {
        code := BindToFreePort(s);
        if code != 0 {
          return;
        }
        Views();
      }
      SetListening(s, s.capacity, s.pending);
      code := 0;
    }

    /** Bind a socket to the lowest free ephemeral port. */
    method BindToFreePort(s: Socket) returns (code: int)
      requires Valid() && s in sockets && s.domain == LINUX_AF_INET
      modifies s`isBound, s`path, s`isAbstract, s`localIp, s`localPort, s`localPid, s`localGroups
      ensures Valid() && Links() == old(Links())
      ensures code == if old(PortFree(s)) then 0 else EADDRINUSE
      ensures code != 0 ==> Addresses() == old(Addresses())
      ensures code == 0 ==> exists port: nat ::
        old(LowestFree(s, port)) && Addresses() == old(Addresses())[s := Inet(0, port)]
    {
      hide NoDuplicates, Linked, ConflictFree, Buffers, Conflict;
      hide SocketManager.Links, SocketManager.Addresses, SocketManager.PortUsed;
      var port := FindEphemeralPort(s);
      assert forall p: nat :: LowestFree(s, p) == old(LowestFree(s, p));
      if port == 0 {
        return EADDRINUSE;
      }
      OnlyInetPorts(s, port);
      SetAddress(s, Inet(0, port), []);
      return 0;
    }

    /** A listening UNIX socket bound to this name. */
    ghost predicate Answers(t: Socket, name: Address)
      reads t
    {
      t.domain == LINUX_AF_UNIX && t.isListening && Conflict(t.BoundTo(), name)
    }

    method FindListener(name: Address) returns (l: Socket?)
      requires name.UnixPath?
      ensures l != null ==> l in sockets && Answers(l, name)
      ensures l == null ==> forall t | t in sockets :: !Answers(t, name)
    {
      var i := 0;
      while i < |sockets|
        invariant 0 <= i <= |sockets|
        invariant forall j | 0 <= j < i :: !Answers(sockets[j], name)
      {
        var t := sockets[i];
        if t.domain == LINUX_AF_UNIX && t.isBound && t.isListening && t.isAbstract == name.isAbstract {
          var equal := AreUnixPathsEqual(t.path, name.path, name.isAbstract);
          if equal {
            return t;
          }
        }
        i := i + 1;
      }
      return null;
    }

    /** The listener found first is the only one. */
    lemma OnlyListener(l: Socket, t: Socket, name: Address)
      requires Valid() && name.UnixPath? && l in sockets && t in sockets && Answers(l, name) && Answers(t, name)
      ensures l == t
    {
      hide Linked, Buffers, NoDuplicates, Conflict;
      OnlyMatch(Addresses(), l, t, name.isAbstract, name.path);
    }

    /** Ask the listener bound to a name for a connection. */
    method ConnectSocket(owner: Process?, fd: int, address: Option<seq<Byte>>) returns (code: int, ghost s: Socket?)
      requires Valid()
      modifies sockets`peer, sockets`pending, sockets`remotePid, sockets`remoteGroups
      ensures Valid() && Addresses() == old(Addresses())
      ensures code != 0 ==> Links() == old(Links())
      // s is the socket of a request that passes the checks of its form
      ensures var early := ConnectError(owner, fd, address, old(Named(sockets, owner, fd)));
        && s == (if early == 0 then old(Named(sockets, owner, fd)) else null)
        && (early != 0 ==> code == early)
      ensures s != null && s.domain == LINUX_AF_NETLINK ==>
        && s in sockets && code == 0 && Links() == old(Links())
        && s.remotePid == NetlinkPid(address.value) && s.remoteGroups == NetlinkGroups(address.value)
      ensures s != null && s.domain != LINUX_AF_NETLINK ==>
        && s in sockets && s.domain == LINUX_AF_UNIX && IsStream(s.kind)
        && var name := Requested(LINUX_AF_UNIX, address.value);
          && (old(s.peer) != null ==> code == EISCONN)
          && (old(s.peer) == null && name == Unbound ==> code == EINVAL)
          && (old(s.peer) == null && name != Unbound ==>
              && (code == ECONNREFUSED <==> forall l | l in sockets :: !old(Answers(l, name)))
              && forall l | l in sockets && old(Answers(l, name)) ::
                if old(|l.pending| < l.capacity) then
                  && code == 0 && Links() == Connect(old(Links()), s, l)
                  // the client waits behind the earlier ones
                  && s.peer == l && l.pending == old(l.pending) + [s]
                  && (forall t | t in sockets && t != s :: t.peer == old(t.peer))
                  && (forall t | t in sockets && t != l :: t.pending == old(t.pending))
                else code == EAGAIN)
    {
      hide NoDuplicates, Linked, ConflictFree, Buffers, Conflict, PathLength;
      hide SocketManager.Links, SocketManager.Addresses;
      s := null;
      if owner == null || fd < 0 || address.None? || |address.value| < FAMILY_SIZE {
        return EINVAL, s;
      }
      var b := address.value;
      var client := FindSocket(owner, fd);
      if client == null {
        return ENOTSOCK, s;
      }
      if client.domain != LINUX_AF_NETLINK && !IsStream(client.kind) {
        return EOPNOTSUPP, s;
      }
      if Family(b) != client.domain {
        return EAFNOSUPPORT, s;
      }
      if client.domain == LINUX_AF_NETLINK {
        if |b| < SOCKADDR_NL_SIZE {
          return EINVAL, s;
        }
        s := client;
        SetRemote(client, b);
        return 0, s;
      }
      if client.domain != LINUX_AF_UNIX {
        return EAFNOSUPPORT, s;
      }
      if |b| <= FAMILY_SIZE {
        return EINVAL, s;
      }
      if |b| > SOCKADDR_UN_SIZE {
        return ENAMETOOLONG, s;
      }
      s := client;
      if client.peer != null {
        return EISCONN, s;
      }
      var length, isAbstract := ComputeUnixAddressPathLength(b[2..]);
      if length == 0 {
        return EINVAL, s;
      }
      var name := UnixPath(isAbstract, b[2..][..length]);
      var l := FindListener(name);
      if l == null {
        return ECONNREFUSED, s;
      }
      forall t | t in sockets && Answers(t, name)
        ensures t == l
      {
        OnlyListener(l, t, name);
      }
      if |l.pending| >= l.capacity {
        return EAGAIN, s;
      }
      LinkClient(client, l);
      return 0, s;
    }

    method SetRemote(s: Socket, b: seq<Byte>)
      requires Valid() && s in sockets && |b| >= SOCKADDR_NL_SIZE
      modifies s`remotePid, s`remoteGroups
      ensures Valid() && Links() == old(Links()) && Addresses() == old(Addresses())
      ensures s.remotePid == NetlinkPid(b) && s.remoteGroups == NetlinkGroups(b)
    {
      hide NoDuplicates, Linked, ConflictFree, Buffers, SocketManager.Links, SocketManager.Addresses;
      s.remotePid, s.remoteGroups := NetlinkPid(b), NetlinkGroups(b);
      OneWritten(s);
    }

    method LinkClient(client: Socket, l: Socket)
      requires Valid() && client in sockets && l in sockets
      requires client.domain == LINUX_AF_UNIX && client.peer == null
      requires l.domain == LINUX_AF_UNIX && l.isListening && |l.pending| < l.capacity
      modifies client`peer, l`pending
      ensures Valid() && Addresses() == old(Addresses())
      ensures Links() == Connect(old(Links()), client, l)
      ensures client.peer == l && l.pending == old(l.pending) + [client]
    {
      hide NoDuplicates, Linked, ConflictFree, Buffers, SocketManager.Links, SocketManager.Addresses;
      Views();
      ConnectLinked(Links(), client, l);
      SetPending(l, l.pending + [client]);
      Views();
      SetPeer(client, l);
    }

    method IsSocketTracked(s: Socket) returns (tracked: bool)
      ensures tracked <==> s in sockets
    {
      var i := 0;
      while i < |sockets|
        invariant 0 <= i <= |sockets| && s !in sockets[..i]
      {
        if sockets[i] == s {
          return true;
        }
        assert sockets[..i + 1] == sockets[..i] + [sockets[i]];
        i := i + 1;
      }
      assert sockets[..i] == sockets;
      return false;
    }

    method DequeueFirst(s: Socket) returns (first: Socket)
      requires Valid() && s in sockets && s.pending != []
      modifies s`pending
      ensures Valid() && Addresses() == old(Addresses())
      ensures first == old(s.pending)[0] && s.pending == old(s.pending)[1..]
      ensures s in old(Links()) && old(Links())[s].pending == old(s.pending) && Links() == Dequeue(old(Links()), s)
    {
      hide NoDuplicates, Linked, ConflictFree, Buffers, SocketManager.Links, SocketManager.Addresses;
      Views();
      DequeueLinked(Links(), s);
      first := s.pending[0];
      SetPending(s, s.pending[1..]);
    }

    /** Take entries off the queue until one is tracked. */
    method DequeueTracked(s: Socket) returns (client: Socket?)
      requires Valid() && s in sockets
      modifies s`pending
      ensures Valid() && Addresses() == old(Addresses())
      ensures client == null <==> old(s.pending) == []
      ensures client == null ==> Links() == old(Links())
      // the first entry is always tracked
      ensures client != null ==>
        && client == old(s.pending)[0] && client in sockets && client.domain == LINUX_AF_UNIX
        && s.pending == old(s.pending)[1..] && Links() == Dequeue(old(Links()), s)
    {
      hide NoDuplicates, Linked, ConflictFree, Buffers, SocketManager.Links, SocketManager.Addresses;
      ghost var k := 0;
      ghost var queue := s.pending;
      ghost var L := Links();
      assert Linked(L);
      Views();
      client := null;
      while |s.pending| > 0
        invariant 0 <= k <= |queue| && s.pending == queue[k..] && Valid() && client == null
        invariant forall j | 0 <= j < k :: queue[j] !in sockets
        invariant Addresses() == old(Addresses())
        invariant k == 0 ==> Links() == L
        decreases |s.pending|
      {
        var first := DequeueFirst(s);
        var tracked := IsSocketTracked(first);
        if tracked {
          client := first;
          break;
        }
        k := k + 1;
      }
      assert queue[0..] == queue;
      if queue != [] {
        PendingTracked(L, s);
        assert queue[0] in sockets && queue[0].domain == LINUX_AF_UNIX;
      }
    }

    lemma PendingTracked(L: SocketLinks.Links<Socket>, s: Socket)
      requires Linked(L) && s in L
      ensures forall j | 0 <= j < |L[s].pending| :: L[s].pending[j] in L && L[L[s].pending[j]].unix
    {
      forall j | 0 <= j < |L[s].pending|
        ensures L[s].pending[j] in L && L[L[s].pending[j]].unix
      {
        assert L[s].pending[j] in L[s].pending;
      }
    }

    /** Link a new socket with the client it was accepted for; L is how the links were before. */
    method LinkAccepted(ghost L: SocketLinks.Links<Socket>, ghost l: Socket, client: Socket, accepted: Socket)
      requires Valid() && Linked(L) && l in L && accepted !in L && client in L && client != accepted
      requires L[l].pending != [] && client == L[l].pending[0]
      requires Links() == Create(Dequeue(L, l), accepted, true)
      modifies client`peer, accepted`peer
      ensures Valid() && Addresses() == old(Addresses())
      ensures Links() == Accept(L, l, accepted) && client.peer == accepted && accepted.peer == client
    {
      hide NoDuplicates, Linked, ConflictFree, Buffers, SocketManager.Links, SocketManager.Addresses;
      hide Create, Dequeue, Accept;
      AcceptLinked<Socket>(L, l, accepted);
      AcceptInSteps<Socket>(L, l, accepted);
      Views();
      SetPeer(accepted, client);
      Views();
      SetPeer(client, accepted);
    }

    /** Turn the oldest pending client of a listener into a connected pair; a failed creation drops the client. */
    method AcceptSocket(owner: Process?, fd: int, acceptedOwner: Process?, acceptedFd: int)
      returns (accepted: Socket?, error: int, ghost l: Socket?)
      requires Valid()
      modifies this, sockets`peer, sockets`pending
      ensures Valid() && (accepted == null <==> error != 0)
      // l is the listener of a request that finds a pending client
      ensures var early := old(AcceptError(owner, fd, acceptedOwner, acceptedFd, Named(sockets, owner, fd)));
        && l == (if early == 0 then old(Named(sockets, owner, fd)) else null)
        && (early != 0 ==> error == early)
      ensures l == null ==> sockets == old(sockets) && Links() == old(Links()) && Addresses() == old(Addresses())
      ensures l != null ==>
        && l in old(sockets) && old(l.pending) != []
        && error == SocketError(LINUX_AF_UNIX, l.kind, acceptedOwner, acceptedFd, |old(sockets)|)
        && (error != 0 ==> sockets == old(sockets) && Links() == Dequeue(old(Links()), l)
                           && Addresses() == old(Addresses()))
        && (error == 0 ==>
            && fresh(accepted) && sockets == old(sockets) + [accepted] && accepted.kind == l.kind % SOCK_TYPES
            && accepted.owner == acceptedOwner && accepted.fd == acceptedFd
            && accepted.domain == LINUX_AF_UNIX && accepted.protocol == l.protocol
            && !accepted.shutRead && !accepted.shutWrite
            && accepted.ring != null && accepted.ring.accepted == []
            && old(l.pending)[0] in old(Links())
            && Links() == Accept<Socket>(old(Links()), l, accepted)
            && Addresses() == old(Addresses())[accepted := Unbound]
            // the first client and the new socket are each other's peers
            && accepted.peer == old(l.pending)[0] && old(l.pending)[0].peer == accepted)
        // the clients behind the first one wait on, and nothing else changes
        && l.pending == old(l.pending)[1..]
        && (forall t | t in old(sockets) && t != l :: t.pending == old(t.pending))
        && (forall t | t in old(sockets) && (error == 0 ==> t != old(l.pending)[0]) :: t.peer == old(t.peer))
    {
      hide NoDuplicates, Linked, ConflictFree, Buffers, SocketManager.Links, SocketManager.Addresses, Accept;
      ghost var L := Links();
      assert Linked(L);
      Views();
      l := null;
      if owner == null || acceptedOwner == null || fd < 0 || acceptedFd < 0 {
        return null, EINVAL, l;
      }
      var listener := FindSocket(owner, fd);
      if listener == null {
        return null, ENOTSOCK, l;
      }
      if listener.domain != LINUX_AF_UNIX {
        return null, EAFNOSUPPORT, l;
      }
      if !listener.isListening {
        return null, EINVAL, l;
      }
      var client := DequeueTracked(listener);
      if client == null {
        return null, EAGAIN, l;
      }
      l := listener;
      accepted, error := CreateSocket(listener.domain, listener.kind, listener.protocol, acceptedOwner, acceptedFd);
      if accepted != null {
        LinkAccepted(L, listener, client, accepted);
      }
    }

    /** Shut down one or both directions of a socket. */
    method ShutdownSocket(owner: Process?, fd: int, how: int) returns (code: int, ghost s: Socket?)
      requires Valid()
      modifies sockets`shutRead, sockets`shutWrite
      ensures Valid() && Links() == old(Links()) && Addresses() == old(Addresses())
      // s is the socket of a well-formed request
      ensures var early := ShutdownError(owner, fd, how, old(Named(sockets, owner, fd)));
        && s == (if early == 0 then old(Named(sockets, owner, fd)) else null)
        && (early != 0 ==> code == early)
      ensures s != null ==>
        && s in sockets
        && code == (if s.domain != LINUX_AF_NETLINK && IsStream(s.kind) && !old(s.Connected()) then ENOTCONN else 0)
        && (s.domain == LINUX_AF_INET && IsStream(s.kind) ==> code == ENOTCONN)
        && s.shutRead == (old(s.shutRead) || (code == 0 && how != SHUT_WR))
        && s.shutWrite == (old(s.shutWrite) || (code == 0 && how != SHUT_RD))
      ensures forall t | t in sockets && t != s :: unchanged(t)
    {
      hide NoDuplicates, Linked, ConflictFree, Buffers, SocketManager.Links, SocketManager.Addresses;
      s := null;
      if owner == null || fd < 0 {
        return EINVAL, s;
      }
      if how != SHUT_RD && how != SHUT_WR && how != SHUT_RDWR {
        return EINVAL, s;
      }
      var entry := FindSocket(owner, fd);
      if entry == null {
        return ENOTSOCK, s;
      }
      s := entry;
      if entry.domain != LINUX_AF_NETLINK && IsStream(entry.kind) && !entry.Connected() {
        return ENOTCONN, s;
      }
      SetShutdown(entry, how == SHUT_RD || how == SHUT_RDWR, how == SHUT_WR || how == SHUT_RDWR);
      return 0, s;
    }

    method SetShutdown(s: Socket, read: bool, write: bool)
      requires Valid() && s in sockets
      modifies s`shutRead, s`shutWrite
      ensures Valid() && Links() == old(Links()) && Addresses() == old(Addresses())
      ensures s.shutRead == (old(s.shutRead) || read) && s.shutWrite == (old(s.shutWrite) || write)
    {
      hide NoDuplicates, Linked, ConflictFree, Buffers, SocketManager.Links, SocketManager.Addresses;
      if read {
        s.shutRead := true;
      }
      if write {
        s.shutWrite := true;
      }
      OneWritten(s);
    }

    // ---- closing ----

    /** The lowest other descriptor of the owner that leads to s, or -1. */
    static method FindAlternate(owner: Process, s: Socket, fd: int) returns (d: int)
      ensures d < 0 ==> NoneLeads(owner.files, s, fd, |owner.files|)
      ensures d >= 0 ==>
        d < |owner.files| && d != fd && owner.files[d] == s && NoneLeads(owner.files, s, fd, d)
    {
      d := 0;
      while d < |owner.files|
        invariant 0 <= d <= |owner.files| && NoneLeads(owner.files, s, fd, d)
      {
        if d != fd && owner.files[d] == s {
          return;
        }
        d := d + 1;
      }
      d := -1;
    }

    method SetDescriptor(s: Socket, fd: int)
      requires Valid() && s in sockets
      modifies s`fd
      ensures Valid() && Links() == old(Links()) && Addresses() == old(Addresses()) && s.fd == fd
    {
      hide NoDuplicates, Linked, ConflictFree, Buffers, SocketManager.Links, SocketManager.Addresses;
      s.fd := fd;
      OneWritten(s);
    }

    /** The queue entries other than x, in order. */
    static method RemovePendingConnection(queue: seq<Socket>, x: Socket) returns (kept: seq<Socket>)
      ensures kept == Strike(queue, x)
    {
      kept := [];
      var i := 0;
      while i < |queue|
        invariant 0 <= i <= |queue| && kept == Strike(queue[..i], x)
      {
        assert queue[..i + 1][..i] == queue[..i];
        if queue[i] != x {
          kept := kept + [queue[i]];
        }
        i := i + 1;
      }
      assert queue[..i] == queue;
    }

    /** Every other UNIX socket forgets s as its peer and as a pending client. */
    method ForgetInOthers(s: Socket)
      requires NoDuplicates(sockets) && s in sockets
      modifies sockets`peer, sockets`pending
      ensures forall t | t in sockets && t != s :: t.Link() == Forget(old(t.Link()), s)
      ensures s.Link() == old(s.Link())
    {
      var i := 0;
      while i < |sockets|
        invariant 0 <= i <= |sockets|
        invariant forall j | 0 <= j < i && sockets[j] != s :: sockets[j].Link() == Forget(old(sockets[j].Link()), s)
        invariant forall j | 0 <= j < |sockets| && (i <= j || sockets[j] == s) ::
            sockets[j].Link() == old(sockets[j].Link())
      {
        var t := sockets[i];
        if t != s && t.domain == LINUX_AF_UNIX {
          if t.peer == s {
            t.peer := null;
          }
          t.pending := RemovePendingConnection(t.pending, s);
        }
        i := i + 1;
      }
    }

    /** The clients still waiting for s lose their peer. */
    method ReleasePending(s: Socket)
      requires s in sockets && forall q | q in s.pending :: q in sockets
      requires forall t | t in sockets && t != s :: t.peer != s
      modifies sockets`peer
      ensures forall t | t in sockets && t != s :: t.Link() == old(t.Link())
    {
      var i := 0;
      while i < |s.pending|
        invariant 0 <= i <= |s.pending|
        invariant forall t | t in sockets && t != s :: t.peer == old(t.peer)
      {
        var q := s.pending[i];
        if q.domain == LINUX_AF_UNIX && q.peer == s {
          q.peer := null;
        }
        i := i + 1;
      }
    }

    /** s is no longer tracked and every other socket forgot it. */
    twostate lemma Closed(s: Socket)
      requires forall t :: t in sockets <==> t in old(sockets) && t != s
      requires forall t | t in sockets :: t.Link() == Forget(old(t.Link()), s)
      requires forall t | t in sockets :: t.BoundTo() == old(t.BoundTo())
      ensures Links() == Close<Socket>(old(Links()), s)
      ensures Addresses() == old(Addresses()) - {s}
    {
    }

    /**
     Close the socket of a descriptor. If another descriptor of the owner still leads
     to it, the socket only changes its descriptor.
     */
    method CloseSocket(owner: Process?, fd: int) returns (closed: bool, ghost s: Socket?)
      requires Valid() && (owner != null ==> |owner.files| == MAX_OPEN_FILES)
      modifies this, sockets`fd, sockets`peer, sockets`pending
      ensures Valid()
      ensures s == if owner == null || fd < 0 then null else old(Named(sockets, owner, fd))
      // it is closed exactly if no other descriptor of the owner leads to it
      ensures closed <==>
        s != null && forall d | 0 <= d < |owner.files| && d != fd :: owner.files[d] != s
      ensures !closed ==> sockets == old(sockets) && Links() == old(Links()) && Addresses() == old(Addresses())
      ensures forall t | t in old(sockets) && (closed || t != s) :: t.fd == old(t.fd)
      // otherwise it gets the lowest of those
      ensures !closed && s != null ==>
        && 0 <= s.fd < |owner.files| && s.fd != fd && owner.files[s.fd] == s
        && forall d | 0 <= d < s.fd && d != fd :: owner.files[d] != s
      ensures closed ==>
        && s in old(sockets) && sockets == Strike<Socket>(old(sockets), s)
        && Links() == Close<Socket>(old(Links()), s) && Addresses() == old(Addresses()) - {s}
        // nothing refers to the closed socket
        && s !in sockets && forall t | t in sockets :: t.peer != s && s !in t.pending
      // and no other link is lost
      ensures closed ==> exists k: nat | k < |old(sockets)| ::
        old(sockets)[k] == s && sockets == old(sockets)[..k] + old(sockets)[k + 1..]
      ensures closed ==> forall t | t in sockets ::
        && t.peer == (if old(t.peer) == s then null else old(t.peer))
        && t.isListening == old(t.isListening) && t.capacity == old(t.capacity)
        && t.pending == Strike<Socket>(old(t.pending), s)
    {
      hide NoDuplicates, Linked, ConflictFree, Buffers, SocketManager.Links, SocketManager.Addresses, Close, Strike;
      s := null;
      if owner == null || fd < 0 {
        return false, s;
      }
      assert sockets[0..] == sockets;
      var k := 0;
      while k < |sockets| && (sockets[k].owner != owner || sockets[k].fd != fd)
        invariant 0 <= k <= |sockets| && Named(sockets[k..], owner, fd) == Named(sockets, owner, fd)
      {
        assert sockets[k..][1..] == sockets[k + 1..];
        k := k + 1;
      }
      if k == |sockets| {
        return false, s;
      }
      var closing := sockets[k];
      s := closing;
      var alternate := FindAlternate(owner, closing, fd);
      if alternate >= 0 {
        SetDescriptor(closing, alternate);
        return false, s;
      }
      Untrack(closing, k);
      closed := true;
    }

    lemma OnlyUnixLinked(L: SocketLinks.Links<Socket>, s: Socket)
      requires Linked(L) && s in L
      ensures forall t | t in L && !L[t].unix :: L[t].peer == None
      ensures forall q | q in L[s].pending :: q in L
    {
      forall t | t in L
        ensures GoodPeer(L, t)
      {
      }
      forall q | q in L[s].pending
        ensures q in L
      {
        assert GoodPending(L, s, q);
      }
    }

    /** Every other socket forgets s. */
    method Detach(s: Socket)
      requires Valid() && s in sockets
      modifies sockets`peer, sockets`pending
      ensures forall t | t in sockets && t != s :: t.Link() == Forget(old(t.Link()), s)
    {
      hide ConflictFree, Buffers, SocketManager.Links, SocketManager.Addresses, Linked, Strike;
      Views();
      OnlyUnixLinked(Links(), s);
      assert forall t | t in sockets && t.domain != LINUX_AF_UNIX :: !Links()[t].unix;
      ForgetInOthers(s);
      ReleasePending(s);
    }

    lemma OneFewer(T: seq<Socket>, k: nat)
      requires NoDuplicates(T) && Buffers(T) && k < |T|
      ensures var T' := T[..k] + T[k + 1..];
        && NoDuplicates(T') && Buffers(T') && forall t :: t in T' <==> t in T && t != T[k]
    {
      var T' := T[..k] + T[k + 1..];
      assert forall i | 0 <= i < |T'| :: T'[i] == T[if i < k then i else i + 1];
    }

    /** Remove the socket at place k once everything forgot it. */
    method Untrack(s: Socket, k: nat)
      requires Valid() && k < |sockets| && s == sockets[k]
      modifies this, sockets`peer, sockets`pending
      ensures Valid() && sockets == Strike<Socket>(old(sockets), s)
      ensures sockets == old(sockets)[..k] + old(sockets)[k + 1..]
      ensures Links() == Close<Socket>(old(Links()), s) && Addresses() == old(Addresses()) - {s}
      ensures s !in sockets && forall t | t in sockets :: t.peer != s && s !in t.pending
      ensures forall t | t in sockets ::
        t.peer == (if old(t.peer) == s then null else old(t.peer)) && t.pending == Strike<Socket>(old(t.pending), s)
    {
      hide NoDuplicates, Linked, ConflictFree, Buffers, Close, Strike, Forget;
      hide SocketManager.Links, SocketManager.Addresses;
      ghost var L := Links();
      assert Linked(L);
      CloseLinked(L, s);
      StrikeOne(sockets, k);
      FewerAddresses(Addresses(), s);
      Detach(s);
      OneFewer(sockets, k);
      sockets := sockets[..k] + sockets[k + 1..];
      Closed(s);
      LinksKept(s);
      Views();
    }

    /** No link between others was lost. */
    twostate lemma LinksKept(s: Socket)
      requires old(Linked(Links())) && Links() == Close<Socket>(old(Links()), s)
      requires forall t | t in sockets :: t in old(sockets) && t != s
      ensures forall t | t in sockets ::
        && t.peer == (if old(t.peer) == s then null else old(t.peer)) && t.pending == Strike<Socket>(old(t.pending), s)
        && t.isListening == old(t.isListening) && t.capacity == old(t.capacity)
    {
      hide Linked, Close, Strike;
      CloseKeeps<Socket>(old(Links()), s);
      forall t | t in sockets
        ensures t.peer == (if old(t.peer) == s then null else old(t.peer))
        ensures t.pending == Strike<Socket>(old(t.pending), s)
        ensures t.isListening == old(t.isListening) && t.capacity == old(t.capacity)
      {
        assert old(Links())[t] == old(t.Link()) && Links()[t] == t.Link();
      }
    }

    // ---- streams ----

    /** In a stream that is not shut down for reading, bytes can be read. */
    ghost predicate Readable(s: Socket)
      reads s
    {
      s.domain == LINUX_AF_UNIX && IsStream(s.kind) && !s.shutRead && !s.isListening
    }

    /** The result of a read that takes nothing: the end of the stream is 0, a stream that may go on is EAGAIN. */
    ghost function NothingRead(s: Socket, count: nat): int
      reads s, s.peer
    {
      if count == 0 then 0
      else if s.domain == LINUX_AF_NETLINK then EAGAIN
      else if s.shutRead then 0
      else if s.domain != LINUX_AF_UNIX then EBADF
      else if s.isListening then EAGAIN
      else if !IsStream(s.kind) then ENOTCONN
      else if s.peer == null || s.peer.shutWrite then 0
      else EAGAIN
    }

    /** A byte can be written through s: its ring is the peer's receive buffer. */
    ghost predicate Writable(s: Socket)
      reads s, s.peer
      reads if s.peer != null then {s.peer.ring} else {}
    {
      && s.domain == LINUX_AF_UNIX && IsStream(s.kind) && !s.shutWrite && !s.isListening
      && s.peer != null && !s.peer.isListening && !s.peer.shutRead
      && s.peer.ring != null && s.peer.ring.buffered < SOCKET_BUFFER_CAPACITY
    }

    ghost function NothingWritten(s: Socket, count: nat): int
      reads s, s.peer
    {
      if count == 0 then 0
      else if s.domain == LINUX_AF_NETLINK then EBADF
      else if s.shutWrite then EPIPE
      else if s.domain != LINUX_AF_UNIX || s.isListening || !IsStream(s.kind) then EBADF
      else if s.peer == null then ENOTCONN
      else if s.peer.isListening then EAGAIN
      else if s.peer.shutRead then EPIPE
      else EAGAIN
    }

    /** Which error a read reports that takes nothing. */
    lemma ReadErrors(s: Socket, count: nat)
      requires count > 0 && s.domain in {LINUX_AF_UNIX, LINUX_AF_INET, LINUX_AF_NETLINK}
      ensures var code := NothingRead(s, count);
        && code in {0, EAGAIN, ENOTCONN, EBADF}
        && (code == EBADF <==> s.domain == LINUX_AF_INET && !s.shutRead)
        && (code == ENOTCONN <==>
            s.domain == LINUX_AF_UNIX && !s.shutRead && !s.isListening && !IsStream(s.kind))
        && (code == EAGAIN <==>
            || s.domain == LINUX_AF_NETLINK
            || (s.domain == LINUX_AF_UNIX && !s.shutRead && s.isListening)
            || (Readable(s) && s.peer != null && !s.peer.shutWrite))
    {
    }

    /** Which error a write reports that is not accepted. */
    lemma WriteErrors(s: Socket, count: nat)
      requires count > 0 && s.domain in {LINUX_AF_UNIX, LINUX_AF_INET, LINUX_AF_NETLINK}
      ensures var code := NothingWritten(s, count);
        var stream := s.domain == LINUX_AF_UNIX && !s.shutWrite && !s.isListening && IsStream(s.kind);
        && code in {EPIPE, EAGAIN, ENOTCONN, EBADF}
        && (code == EPIPE <==>
            || (s.domain != LINUX_AF_NETLINK && s.shutWrite)
            || (stream && s.peer != null && !s.peer.isListening && s.peer.shutRead))
        && (code == EAGAIN <==> stream && s.peer != null && (s.peer.isListening || !s.peer.shutRead))
        && (code == ENOTCONN <==> stream && s.peer == null)
    {
    }

    lemma PeersAreUnix()
      requires Valid()
      ensures forall s | s in sockets && s.peer != null ::
        s.peer in sockets && s.peer.domain == LINUX_AF_UNIX && s.peer.ring != null
    {
      hide NoDuplicates, ConflictFree;
      Views();
      forall s | s in sockets && s.peer != null
        ensures s.peer in sockets && s.peer.domain == LINUX_AF_UNIX && s.peer.ring != null
      {
        assert GoodPeer(Links(), s);
      }
    }

    /** Into a socket that does not listen, only one socket can write: the one it is linked with. */
    lemma SoleWriter(t: Socket, x: Socket, y: Socket)
      requires Valid() && t in sockets && x in sockets && y in sockets && !t.isListening
      requires x.peer == t && y.peer == t
      ensures x == y && t.peer == x
    {
      hide NoDuplicates, ConflictFree, Buffers, Linked;
      OneWriter(Links(), t, x, y);
    }

    /** A stranded client can neither connect again nor write: both report an error for good. */
    lemma StrandedIsStuck(s: Socket, c: Socket, count: nat)
      requires Valid() && Stranded(Links(), s, c)
      ensures c in sockets && c.peer == s && !Writable(c)
      ensures count > 0 && !c.shutWrite && !c.isListening && IsStream(c.kind) ==> NothingWritten(c, count) == EAGAIN
    {
      hide NoDuplicates, ConflictFree, Buffers;
      Views();
      assert GoodPeer(Links(), c);
    }

    /** Read from a socket; what comes out is the front of what was buffered. */
    method SocketRead(s: Socket, count: nat) returns (code: int, bytes: seq<Byte>)
      requires Valid() && s in sockets
      modifies s.ring
      ensures Valid() && Links() == old(Links()) && Addresses() == old(Addresses())
      ensures code == if bytes == [] then NothingRead(s, count) else |bytes|
      ensures bytes == if Readable(s) then old(s.ring.Contents())[..Smaller(count, old(s.ring.buffered))] else []
      // bytes come out exactly of a UNIX stream that is open for reading and not empty
      ensures bytes != [] <==>
        && count > 0 && s.domain == LINUX_AF_UNIX && s.kind in {LINUX_SOCK_STREAM, LINUX_SOCK_SEQPACKET}
        && !s.shutRead && !s.isListening && old(s.ring.buffered) > 0
      // a read for at least one byte returns 0 exactly at the end of the stream
      ensures count > 0 ==> (code == 0 <==>
        || (s.domain != LINUX_AF_NETLINK && s.shutRead)
        || (Readable(s) && old(s.ring.buffered) == 0 && (s.peer == null || s.peer.shutWrite)))
      ensures s.ring != null ==>
        && s.ring.taken == old(s.ring.taken) + bytes && s.ring.accepted == old(s.ring.accepted)
        && s.ring.Contents() == old(s.ring.Contents())[|bytes|..]
    {
      hide NoDuplicates, ConflictFree, Linked, RingBuffer.Contents, SocketManager.Links, SocketManager.Addresses;
      hide RingBuffer.Valid, Buffers;
      RingOf(s);
      bytes := [];
      if count == 0 {
        return 0, bytes;
      }
      if s.domain == LINUX_AF_UNIX {
        if s.shutRead {
          return 0, bytes;
        }
        if s.isListening {
          return EAGAIN, bytes;
        }
        if IsStream(s.kind) {
          OwnRing(s);
          bytes := s.ring.Read(count);
          RingWritten(s);
          if |bytes| > 0 {
            return |bytes|, bytes;
          }
          if s.peer == null || s.peer.domain != LINUX_AF_UNIX {
            return 0, bytes;
          }
          if s.peer.shutWrite {
            return 0, bytes;
          }
          return EAGAIN, bytes;
        }
        return ENOTCONN, bytes;
      } else if s.domain == LINUX_AF_INET {
        if s.shutRead {
          return 0, bytes;
        }
      } else if s.domain == LINUX_AF_NETLINK {
        return EAGAIN, bytes;
      }
      return EBADF, bytes;
    }

    lemma RingOf(s: Socket)
      requires Valid() && s in sockets
      ensures s.domain in {LINUX_AF_UNIX, LINUX_AF_INET, LINUX_AF_NETLINK}
      ensures s.domain == LINUX_AF_UNIX <==> s.ring != null
      ensures s.ring != null ==> s.ring.Valid() && s.ring.data.Length == SOCKET_BUFFER_CAPACITY
      ensures s.ring != null ==> |s.ring.Contents()| == s.ring.buffered
      ensures s.peer != null ==> s.peer in sockets && s.peer.domain == LINUX_AF_UNIX && s.peer.ring != null
    {
      hide NoDuplicates, ConflictFree, Linked;
      PeersAreUnix();
    }

    /** Only the ring of s was written, and it is sound. */
    twostate lemma RingWritten(s: Socket)
      requires old(Valid()) && sockets == old(sockets) && s in sockets && s.ring != null && s.ring.Valid()
      requires forall t | t in sockets :: unchanged(t)
      requires s.ring.data.Length == SOCKET_BUFFER_CAPACITY
      requires forall t | t in sockets && t.ring != null && t != s :: unchanged(t.ring) && unchanged(t.ring.data)
      ensures Valid() && Links() == old(Links()) && Addresses() == old(Addresses())
    {
      hide NoDuplicates, ConflictFree, Linked, RingBuffer.Valid;
      assert Links() == old(Links()) && Addresses() == old(Addresses());
      assert old(Buffers(sockets));
      forall t | t in sockets && t.ring != null
        ensures t.ring.Valid()
      {
        if t != s {
          assert old(t.ring.Valid());
          assert unchanged(t.ring) && unchanged(t.ring.data);
        }
      }
      assert Buffers(sockets);
    }

    method WriteToPeer(s: Socket, bytes: seq<Byte>) returns (code: int)
      requires Valid() && s in sockets && bytes != [] && s.domain == LINUX_AF_UNIX && IsStream(s.kind)
      modifies if s.peer != null && s.peer.ring != null then {s.peer.ring, s.peer.ring.data} else {}
      ensures Valid() && Links() == old(Links()) && Addresses() == old(Addresses())
      ensures var room := s.peer != null && !s.peer.shutRead && s.peer.ring != null
                          && old(s.peer.ring.buffered) < SOCKET_BUFFER_CAPACITY;
        && (room ==>
            && s.peer.ring != null && code == Smaller(|bytes|, SOCKET_BUFFER_CAPACITY - old(s.peer.ring.buffered)) > 0
            && s.peer.ring.accepted == old(s.peer.ring.accepted) + bytes[..code]
            && s.peer.ring.taken == old(s.peer.ring.taken))
        && (!room ==>
            && code == (if s.peer == null then ENOTCONN else if s.peer.shutRead then EPIPE else EAGAIN)
            && (s.peer != null && s.peer.ring != null ==> unchanged(s.peer.ring) && unchanged(s.peer.ring.data)))
    {
      hide NoDuplicates, ConflictFree, Linked, RingBuffer.Contents, SocketManager.Links, SocketManager.Addresses;
      hide RingBuffer.Valid, Buffers;
      RingOf(s);
      if s.peer == null || s.peer.domain != LINUX_AF_UNIX {
        return ENOTCONN;
      }
      var p := s.peer as Socket;
      RingOf(p);
      OwnRing(p);
      if p.shutRead {
        return EPIPE;
      }
      if p.ring.buffered >= p.ring.data.Length {
        return EAGAIN;
      }
      code := p.ring.Write(bytes);
      RingWritten(p);
    }

    lemma OwnRing(s: Socket)
      requires Valid() && s in sockets && s.ring != null
      ensures forall t | t in sockets && t != s && t.ring != null :: t.ring != s.ring && t.ring.data != s.ring.data
    {
      hide NoDuplicates, ConflictFree, Linked;
    }

    /** Write through a socket; what is accepted goes to the end of its peer's receive buffer. */
    method SocketWrite(s: Socket, bytes: seq<Byte>) returns (code: int)
      requires Valid() && s in sockets
      modifies if s.peer != null && s.peer.ring != null then {s.peer.ring, s.peer.ring.data} else {}
      ensures Valid() && Links() == old(Links()) && Addresses() == old(Addresses())
      ensures bytes != [] && old(Writable(s)) ==>
        && s.peer.ring != null && code == Smaller(|bytes|, SOCKET_BUFFER_CAPACITY - old(s.peer.ring.buffered)) > 0
        && s.peer.ring.accepted == old(s.peer.ring.accepted) + bytes[..code]
        && s.peer.ring.taken == old(s.peer.ring.taken)
      ensures bytes == [] || !old(Writable(s)) ==>
        && code == NothingWritten(s, |bytes|) <= 0
        && (s.peer != null && s.peer.ring != null ==> unchanged(s.peer.ring) && unchanged(s.peer.ring.data))
      // bytes are accepted exactly by an open UNIX stream whose peer is no listener, still reads, and has room
      ensures code > 0 <==>
        && bytes != [] && s.domain == LINUX_AF_UNIX && s.kind in {LINUX_SOCK_STREAM, LINUX_SOCK_SEQPACKET}
        && !s.shutWrite && !s.isListening && s.peer != null && !s.peer.isListening && !s.peer.shutRead
        && old(s.peer.ring != null && s.peer.ring.buffered < SOCKET_BUFFER_CAPACITY)
      // a broken stream is reported exactly when one of the two sides was shut down
      ensures code == EPIPE <==>
        && bytes != [] && s.domain != LINUX_AF_NETLINK
        && (s.shutWrite
            || (s.domain == LINUX_AF_UNIX && IsStream(s.kind) && !s.isListening
                && s.peer != null && !s.peer.isListening && s.peer.shutRead))
    {
      hide NoDuplicates, ConflictFree, Linked, RingBuffer.Contents, SocketManager.Links, SocketManager.Addresses;
      hide RingBuffer.Valid, Buffers;
      RingOf(s);
      if |bytes| == 0 {
        return 0;
      }
      if s.domain == LINUX_AF_UNIX {
        if s.shutWrite {
          return EPIPE;
        }
        if !s.isListening && IsStream(s.kind) {
          if s.peer != null && s.peer.domain == LINUX_AF_UNIX {
            if s.peer.isListening {
              return EAGAIN;
            }
          }
          code := WriteToPeer(s, bytes);
          return;
        }
      } else if s.domain == LINUX_AF_INET {
        if s.shutWrite {
          return EPIPE;
        }
      }
      return EBADF;
    }
  }

  // ---- the checks each call makes first, in order; 0 if all are passed ----

  /** What is wrong with the bytes of an address, for a socket of this domain. */
  function AddressError(domain: int, b: seq<Byte>): int
    requires |b| >= FAMILY_SIZE
  {
    if Family(b) != domain then EAFNOSUPPORT
    else if domain == LINUX_AF_UNIX && |b| > SOCKADDR_UN_SIZE then ENAMETOOLONG
    else if Requested(domain, b) == Unbound then EINVAL
    else 0
  }

  function BindError(owner: Process?, fd: int, address: Option<seq<Byte>>, s: Socket?): int {
    if owner == null || fd < 0 || address.None? || |address.value| < FAMILY_SIZE then EINVAL
    else if s == null then ENOTSOCK
    else AddressError(s.domain, address.value)
  }

  function ListenError(owner: Process?, fd: int, s: Socket?): int {
    if owner == null || fd < 0 then EINVAL
    else if s == null then ENOTSOCK
    else if !IsStream(s.kind) then EOPNOTSUPP
    else 0
  }

  function ConnectError(owner: Process?, fd: int, address: Option<seq<Byte>>, s: Socket?): int {
    if owner == null || fd < 0 || address.None? || |address.value| < FAMILY_SIZE then EINVAL
    else if s == null then ENOTSOCK
    else if s.domain != LINUX_AF_NETLINK && !IsStream(s.kind) then EOPNOTSUPP
    else if Family(address.value) != s.domain then EAFNOSUPPORT
    else if s.domain == LINUX_AF_NETLINK then if |address.value| < SOCKADDR_NL_SIZE then EINVAL else 0
    else if s.domain != LINUX_AF_UNIX then EAFNOSUPPORT
    else if |address.value| <= FAMILY_SIZE then EINVAL
    else if |address.value| > SOCKADDR_UN_SIZE then ENAMETOOLONG
    else 0
  }

  ghost function AcceptError(owner: Process?, fd: int, acceptedOwner: Process?, acceptedFd: int, s: Socket?): int
    reads s
  {
    if owner == null || acceptedOwner == null || fd < 0 || acceptedFd < 0 then EINVAL
    else if s == null then ENOTSOCK
    else if s.domain != LINUX_AF_UNIX then EAFNOSUPPORT
    else if !s.isListening then EINVAL
    else if s.pending == [] then EAGAIN
    else 0
  }

  function ShutdownError(owner: Process?, fd: int, how: int, s: Socket?): int {
    if owner == null || fd < 0 || how !in {SHUT_RD, SHUT_WR, SHUT_RDWR} then EINVAL
    else if s == null then ENOTSOCK
    else 0
  }

  /** The error a socket cannot be created for. */
  function SocketError(domain: int, type_: int, owner: Process?, fd: int, count: nat): int {
    var kind := type_ % SOCK_TYPES;
    if owner == null || fd < 0 then EINVAL
    else if count >= MAX_TRACKED_SOCKETS then EMFILE
    else if domain !in {LINUX_AF_UNIX, LINUX_AF_INET, LINUX_AF_NETLINK} then EAFNOSUPPORT
    else if !IsStream(kind) && kind !in {LINUX_SOCK_DGRAM, LINUX_SOCK_RAW} then ESOCKTNOSUPPORT
    else if domain == LINUX_AF_NETLINK && IsStream(kind) then ESOCKTNOSUPPORT
    else 0
  }

  // ---- what each error says ----

  lemma AddressErrors(domain: int, b: seq<Byte>)
    requires |b| >= FAMILY_SIZE
    ensures var e := AddressError(domain, b);
      && (e == 0 ==> Family(b) == domain && Requested(domain, b) != Unbound)
      && (e == EAFNOSUPPORT <==> Family(b) != domain)
      && (e == ENAMETOOLONG <==> Family(b) == domain == LINUX_AF_UNIX && |b| > SOCKADDR_UN_SIZE)
      && e in {0, EAFNOSUPPORT, ENAMETOOLONG, EINVAL}
    ensures Family(b) == domain == LINUX_AF_INET ==> (AddressError(domain, b) == 0 <==> |b| >= SOCKADDR_IN_SIZE)
    ensures Family(b) == domain == LINUX_AF_NETLINK ==> (AddressError(domain, b) == 0 <==> |b| >= SOCKADDR_NL_SIZE)
    // a UNIX address needs a name: a text that is not empty, or a NUL with something behind it
    ensures Family(b) == domain == LINUX_AF_UNIX ==>
      (AddressError(domain, b) == 0 <==> FAMILY_SIZE < |b| <= SOCKADDR_UN_SIZE && (b[2] != 0 || |b| > 3))
  {
  }

  lemma RequestErrors(owner: Process?, fd: int, address: Option<seq<Byte>>, s: Socket?)
    ensures var invalid := owner == null || fd < 0;
      var short := address.None? || |address.value| < FAMILY_SIZE;
      && (BindError(owner, fd, address, s) == ENOTSOCK <==> !invalid && !short && s == null)
      && (ConnectError(owner, fd, address, s) == ENOTSOCK <==> !invalid && !short && s == null)
      && (ListenError(owner, fd, s) == ENOTSOCK <==> !invalid && s == null)
      && (ListenError(owner, fd, s) == EOPNOTSUPP <==> !invalid && s != null && !IsStream(s.kind))
      && (ListenError(owner, fd, s) == 0 <==> !invalid && s != null && IsStream(s.kind))
      && (invalid || short ==> BindError(owner, fd, address, s) == ConnectError(owner, fd, address, s) == EINVAL)
      && (invalid ==> ListenError(owner, fd, s) == EINVAL)
    ensures BindError(owner, fd, address, s) == 0 ==> s != null && address.Some? && |address.value| >= FAMILY_SIZE
  {
  }

  /** A connection can be asked for by a netlink socket, or by a UNIX stream socket with an address of its family. */
  lemma ConnectErrors(owner: Process, fd: nat, b: seq<Byte>, s: Socket)
    requires |b| >= FAMILY_SIZE
    ensures var e := ConnectError(owner, fd, Some(b), s);
      && (e == EOPNOTSUPP <==> s.domain != LINUX_AF_NETLINK && !IsStream(s.kind))
      && (e == 0 <==>
          || (Family(b) == s.domain == LINUX_AF_NETLINK && |b| >= SOCKADDR_NL_SIZE)
          || (Family(b) == s.domain == LINUX_AF_UNIX && IsStream(s.kind) && FAMILY_SIZE < |b| <= SOCKADDR_UN_SIZE))
      && (e == ENAMETOOLONG <==>
          Family(b) == s.domain == LINUX_AF_UNIX && IsStream(s.kind) && |b| > SOCKADDR_UN_SIZE)
      && (e == EAFNOSUPPORT <==>
          && (s.domain == LINUX_AF_NETLINK || IsStream(s.kind))
          && (Family(b) != s.domain || s.domain !in {LINUX_AF_UNIX, LINUX_AF_NETLINK}))
      && e in {0, EOPNOTSUPP, ENAMETOOLONG, EAFNOSUPPORT, EINVAL}
  {
  }

  lemma AcceptErrors(owner: Process?, fd: int, acceptedOwner: Process?, acceptedFd: int, s: Socket?)
    ensures var e := AcceptError(owner, fd, acceptedOwner, acceptedFd, s);
      var invalid := owner == null || acceptedOwner == null || fd < 0 || acceptedFd < 0;
      && (e == ENOTSOCK <==> !invalid && s == null)
      && (e == EAFNOSUPPORT <==> !invalid && s != null && s.domain != LINUX_AF_UNIX)
      && (e == EINVAL <==> invalid || (s != null && s.domain == LINUX_AF_UNIX && !s.isListening))
      && (e == EAGAIN <==> !invalid && s != null && s.domain == LINUX_AF_UNIX && s.isListening && s.pending == [])
      && (e == 0 <==> !invalid && s != null && s.domain == LINUX_AF_UNIX && s.isListening && s.pending != [])
  {
  }

  lemma ShutdownErrors(owner: Process?, fd: int, how: int, s: Socket?)
    ensures var e := ShutdownError(owner, fd, how, s);
      var invalid := owner == null || fd < 0 || how < SHUT_RD || how > SHUT_RDWR;
      && (e == EINVAL <==> invalid) && (e == ENOTSOCK <==> !invalid && s == null)
      && (e == 0 <==> !invalid && s != null)
  {
  }

  lemma SocketErrors(domain: int, type_: int, owner: Process?, fd: int, count: nat)
    ensures var e := SocketError(domain, type_, owner, fd, count);
      var kind := type_ % SOCK_TYPES;
      var known := domain in {LINUX_AF_UNIX, LINUX_AF_INET, LINUX_AF_NETLINK};
      && (e == EINVAL <==> owner == null || fd < 0)
      && (e == EMFILE <==> owner != null && fd >= 0 && count >= MAX_TRACKED_SOCKETS)
      && (e == EAFNOSUPPORT <==> owner != null && fd >= 0 && count < MAX_TRACKED_SOCKETS && !known)
      && (e == 0 <==>
          && owner != null && fd >= 0 && count < MAX_TRACKED_SOCKETS && known
          && (kind in {LINUX_SOCK_DGRAM, LINUX_SOCK_RAW} || (domain != LINUX_AF_NETLINK && IsStream(kind))))
      && e in {0, EINVAL, EMFILE, EAFNOSUPPORT, ESOCKTNOSUPPORT}
  {
  }
}
