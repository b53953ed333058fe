/** The receive-socket setup around the filter: which link-layer protocol
    the socket is opened and bound with, whether the filter is attached,
    and the sequence `open_receive_socket` runs, with the kernel's answers
    to its system calls taken as inputs. */
module ReceiveSocket {
  import opened Bits
  import opened ClassicBpf
  import opened ReceiveFilter

  /** The mode character selecting the Wi-Fi (promiscuous) path; any other
      character selects monitor mode. */
  const WIFI_MODE: char := 'w'

  /** Link-layer protocol of a socket or of its binding: `ETHER_TYPE`
      (defined in db_protocol.h) or `ETH_P_802_2`. */
  datatype Protocol = EtherType | Llc8022

  /** Protocol passed to `socket()` by `open_receive_socket`. */
  function SocketProtocol(mode: char): Protocol {
    if mode == WIFI_MODE then EtherType else Llc8022
  }

  /** Protocol written into `sll_protocol` by `bindsocket`. */
  function BindProtocol(mode: char): (p: Protocol)
    ensures p == EtherType <==> mode == WIFI_MODE
    ensures p == SocketProtocol(mode)
  {
    if mode == WIFI_MODE then EtherType else Llc8022
  }

  /** `open_receive_socket` attaches the filter exactly in monitor mode. */
  function AttachesFilter(mode: char): bool {
    mode != WIFI_MODE
  }

  /** The kernel's answers to the calls `open_receive_socket` makes:
      the descriptor `socket()` returns (`None` for -1), and whether
      `SO_ATTACH_FILTER`, `SO_REUSEADDR`, the interface-index lookup and
      `bind()` succeed. The promiscuous-flag `ioctl`s and `fcntl` are not
      listed: the source ignores their results. */
  datatype Kernel = Kernel(socketFd: Option<nat>, attachOk: bool, reuseAddrOk: bool,
                           interfaceExists: bool, bindOk: bool)

  /** The value a C descriptor variable holds, whether the descriptor that
      `socket()` created is still open, and what has been configured on it. */
  datatype Sock = Sock(fd: int, isOpen: bool, protocol: Protocol, promiscuous: bool,
                       filter: Option<seq<Insn>>, bound: Option<Protocol>)

  /** `setBPF`: attach the built filter; on failure close the socket and
      return -1. Attaching to an invalid descriptor fails. */
  function SetBpf(s: Sock, id: CommId, direction: uint8, port: uint8, attachOk: bool): (r: Sock)
    ensures r.fd == (if attachOk && s.fd >= 0 then s.fd else -1)
    ensures r.fd >= 0 ==> r == s.(filter := Some(Filter(id, direction, port)))
    ensures r.fd < 0 ==> !r.isOpen && r.filter == s.filter
  {
    if attachOk && s.fd >= 0 then s.(filter := Some(Filter(id, direction, port)))
    else s.(fd := -1, isOpen := false)
  }

  /** `bindsocket` as written: look the interface up and bind with the
      mode's protocol; on either failure return -1, leaving the socket
      open. The lookup on an invalid descriptor fails. */
  function BindSocket(s: Sock, mode: char, k: Kernel): (r: Sock)
    ensures r.fd == (if s.fd >= 0 && k.interfaceExists && k.bindOk then s.fd else -1)
    ensures r.fd >= 0 ==> r == s.(bound := Some(BindProtocol(mode)))
    ensures r.fd < 0 ==> r == s.(fd := -1)
  {
    if s.fd < 0 || !k.interfaceExists || !k.bindOk then s.(fd := -1)
    else s.(bound := Some(BindProtocol(mode)))
  }

  /** Result of `open_receive_socket`: the process exits (line 186), or the
      function returns with the socket in state `s`. */
  datatype Outcome = Exited | Returned(s: Sock)

  /** A socket just created by `socket()`. */
  function Fresh(fd: nat, mode: char): Sock {
    Sock(fd, true, SocketProtocol(mode), false, None, None)
  }

  /** `open_receive_socket` as written. */
  function OpenReceiveSocket(mode: char, id: CommId, direction: uint8, port: uint8,
                             k: Kernel): Outcome
  {
    match k.socketFd
    case None => Returned(Sock(-1, false, SocketProtocol(mode), false, None, None))
    case Some(fd) =>
      if mode == WIFI_MODE then
        if !k.reuseAddrOk then Exited
        else Returned(BindSocket(Fresh(fd, mode).(promiscuous := true), mode, k))
      else
        Returned(BindSocket(SetBpf(Fresh(fd, mode), id, direction, port, k.attachOk), mode, k))
  }

  /** Every call succeeds exactly when the returned descriptor is the one
      `socket()` gave; it is then open, bound with the protocol the socket
      was opened with, filtered by `Filter(id, direction, port)` in monitor
      mode and unfiltered but promiscuous in Wi-Fi mode. The process exits
      only when `SO_REUSEADDR` fails in Wi-Fi mode. */
  lemma OpenReceiveSocketOutcome(mode: char, id: CommId, direction: uint8, port: uint8, k: Kernel)
    ensures var o := OpenReceiveSocket(mode, id, direction, port, k);
      (o.Exited? <==> k.socketFd.Some? && mode == WIFI_MODE && !k.reuseAddrOk) &&
      (o.Returned? ==>
        (o.s.fd >= 0 <==>
           k.socketFd.Some? && (mode != WIFI_MODE ==> k.attachOk) &&
           k.interfaceExists && k.bindOk) &&
        (o.s.fd >= 0 ==>
           o.s.fd == k.socketFd.value && o.s.isOpen &&
           o.s.bound == Some(o.s.protocol) && o.s.protocol == SocketProtocol(mode) &&
           o.s.filter == (if AttachesFilter(mode) then Some(Filter(id, direction, port)) else None) &&
           o.s.promiscuous == !AttachesFilter(mode)))
  {
  }

  /** On every path that returns, whether the calls succeed or not: the
      socket was opened with `ETHER_TYPE` exactly in Wi-Fi mode; a filter
      is present only in monitor mode, and always once `SO_ATTACH_FILTER`
      succeeded there; the promiscuous flag is requested only in Wi-Fi
      mode, and always once `socket()` succeeded there; and a binding, when
      made, uses the protocol the socket was opened with. */
  lemma OpenReceiveSocketModes(mode: char, id: CommId, direction: uint8, port: uint8, k: Kernel)
    ensures var o := OpenReceiveSocket(mode, id, direction, port, k);
      o.Returned? ==>
        (o.s.protocol == EtherType <==> mode == WIFI_MODE) &&
        (o.s.filter.Some? ==> mode != WIFI_MODE) &&
        (mode != WIFI_MODE && k.socketFd.Some? && k.attachOk ==>
           o.s.filter == Some(Filter(id, direction, port))) &&
        (o.s.promiscuous <==> mode == WIFI_MODE && k.socketFd.Some?) &&
        (o.s.bound.Some? ==> o.s.bound == Some(o.s.protocol))
  {
  }

  /** As written, a missing interface or a failed `bind()` returns -1 while
      the socket stays open: nothing can close it afterwards. */
  lemma OpenReceiveSocketLeaks(mode: char, id: CommId, direction: uint8, port: uint8, k: Kernel)
    requires k.socketFd.Some? && k.attachOk && k.reuseAddrOk
    requires !k.interfaceExists || !k.bindOk
    ensures var o := OpenReceiveSocket(mode, id, direction, port, k);
      o.Returned? && o.s.fd == -1 && o.s.isOpen
  {
  }

  /** `bindsocket` closing the socket on its failure paths, as `setBPF`
      does. */
  function BindSocketClosing(s: Sock, mode: char, k: Kernel): (r: Sock)
    ensures r.fd == BindSocket(s, mode, k).fd
    ensures r.fd >= 0 ==> r == BindSocket(s, mode, k)
    ensures r.fd < 0 ==> !r.isOpen
  {
    if s.fd < 0 || !k.interfaceExists || !k.bindOk then s.(fd := -1, isOpen := false)
    else s.(bound := Some(BindProtocol(mode)))
  }

  /** `open_receive_socket` with the corrected `bindsocket`. */
  function OpenReceiveSocketClosing(mode: char, id: CommId, direction: uint8, port: uint8,
                                    k: Kernel): Outcome
  {
    match k.socketFd
    case None => Returned(Sock(-1, false, SocketProtocol(mode), false, None, None))
    case Some(fd) =>
      if mode == WIFI_MODE then
        if !k.reuseAddrOk then Exited
        else Returned(BindSocketClosing(Fresh(fd, mode).(promiscuous := true), mode, k))
      else
        Returned(BindSocketClosing(SetBpf(Fresh(fd, mode), id, direction, port, k.attachOk), mode, k))
  }

  /** The corrected sequence returns the same descriptor as the original on
      every path, is identical to it on success, and never returns -1 with
      the socket left open. */
  lemma OpenReceiveSocketClosingCorrect(mode: char, id: CommId, direction: uint8, port: uint8, k: Kernel)
    ensures var o := OpenReceiveSocketClosing(mode, id, direction, port, k);
      var w := OpenReceiveSocket(mode, id, direction, port, k);
      o.Exited? == w.Exited? &&
      (o.Returned? ==> o.s.fd == w.s.fd && (o.s.fd >= 0 ==> o == w) && (o.s.fd < 0 ==> !o.s.isOpen))
  {
  }
}
