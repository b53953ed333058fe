# DroneBridge receive filter and receive socket

This project models how DroneBridge's ground and air modules set up their raw
receive socket (`control_status/common/db_raw_receive.c`):

- **Filter builder.** `setBPF` starts from a fixed 20-instruction Linux
  classic-BPF program. It overwrites the operand of four comparisons with the
  communication id, the direction byte, and the protocol version with the
  port.
- **Socket setup.** `bindsocket` and `open_receive_socket` choose the
  link-layer protocol from the mode character and attach the filter only in
  monitor mode.

The model has four modules:

- `Bits` defines unsigned byte, half-word and word types, and the shift, or
  and and operations the filter uses. They are defined arithmetically on
  natural numbers.
- `ClassicBpf` is the classic-BPF machine for the opcodes the filter uses.
  It covers the instruction record, the kernel's attach-time check, the
  semantics as a function (`Run`), and the interpreter loop (`Execute`),
  which is proved equal to that function. Loads are big-endian, a load past
  the end of the frame returns 0, and a jump goes to `pc+1+jt` or
  `pc+1+jf`. This follows Documentation/networking/filter.txt of the Linux
  kernel.
- `ReceiveFilter` holds the template, the operand packing, the array-building
  method `BuildFilter`, and the accepted frames as a predicate on the
  captured bytes. The main theorem, `FilterAcceptsExactly`, says the built
  program returns 262144 exactly for those frames and 0 for every other
  frame.
- `ReceiveSocket` models the mode decisions and the call sequence of
  `open_receive_socket`. The kernel's answers to `socket`, `setsockopt`,
  `ioctl` and `bind` are inputs.

## Model

| member | source | states |
|---|---|---|
| ReceiveFilter.BuildFilter | control_status/common/db_raw_receive.c:37-66 | returns a new array whose contents are `Filter(id, direction, port)`, the finished `dest_filter`: the template with the operands of 11, 13, 15 and 17 overwritten |
| ReceiveFilter.FilterShape | control_status/common/db_raw_receive.c:37-66 | the built program has 20 instructions; opcodes and jump offsets are the template's; every instruction other than 11, 13, 15 and 17 equals the template's |
| ReceiveFilter.CommIdOperand | control_status/common/db_raw_receive.c:63 | `id[0]<<24 \| id[1]<<16 \| id[2]<<8 \| id[3]` is the big-endian word of the four id bytes |
| ReceiveFilter.DirectionOperand | control_status/common/db_raw_receive.c:64 | operand 13 is `0x0100 + direction` |
| ReceiveFilter.PortOperand | control_status/common/db_raw_receive.c:65 | operand 15 is `0x01 * 0x100 + port` |
| ReceiveFilter.FilterOperands | control_status/common/db_raw_receive.c:63-66 | the four operands of the built program; operands 13 and 15 are below 0x10000 and follow a half-word load, and operand 17 is below 0x100 and follows a byte load |
| ReceiveFilter.ExampleOperands | control_status/common/db_raw_receive.c:63-66 | id AA BB CC DD packs to 0xAABBCCDD; ids 00 00 00 00 and FF FF FF FF pack to 0x00000000 and 0xFFFFFFFF; direction 1 and port 1 give 0x101, 0x101 and 0x1 |
| ReceiveFilter.FilterJumps | control_status/common/db_raw_receive.c:47-58 | every conditional jump is forward and inside the program; the false branch of 9, 11, 13, 15 and 17 lands on 19 (`ret 0`); 8's true branch lands on 10; 18 and 19 are `ret 0x40000` and `ret 0` |
| ReceiveFilter.FilterValid | control_status/common/db_raw_receive.c:68-73 | the built program passes the kernel's attach-time check for every id, direction and port |
| ReceiveFilter.FilterInjective | control_status/common/db_raw_receive.c:36-66 | two built programs are equal if and only if they were built from the same id, direction and port |
| ReceiveFilter.RadiotapPrefix | control_status/common/db_raw_receive.c:39-45 | instructions 0-6 return 0 on a frame shorter than 4 bytes; otherwise they leave A, X and M[0] equal to the little-endian radiotap length (`RadiotapLength`: byte 2 plus 256 times byte 3) and continue at 7 |
| ReceiveFilter.FrameControlCheck | control_status/common/db_raw_receive.c:46-48 | instructions 7-9 continue at 10 exactly when the frame-control byte at X exists and has bit 0x08 or 0x80 set, and return 0 otherwise |
| ReceiveFilter.IdAndDirectionChecks | control_status/common/db_raw_receive.c:49-58 | from instruction 10 the program returns 0x40000 if the word at X+6, the half-words at X+4 and X+16 and the byte at X+18 all match, and 0 otherwise |
| ReceiveFilter.DirectionCheck | control_status/common/db_raw_receive.c:51-58 | the same statement from instruction 12, once the id has matched |
| ReceiveFilter.VersionAndPortChecks | control_status/common/db_raw_receive.c:53-58 | the same statement from instruction 14, once id and direction have matched |
| ReceiveFilter.FilterAcceptsExactly | control_status/common/db_raw_receive.c:37-59 | on every frame the built program returns 262144 if the frame is a data or beacon frame carrying the id, direction, version and port, and 0 otherwise |
| ReceiveFilter.Delivered | control_status/common/db_raw_receive.c:57-58 | a socket never delivers more bytes than the frame has |
| ReceiveFilter.FilterDelivery | control_status/common/db_raw_receive.c:57-58 | a matching frame is delivered up to 262144 bytes; every other frame is dropped |
| ReceiveFilter.SyntheticFrameVerdict | control_status/common/db_raw_receive.c:37-66 | on a frame laid out with any radiotap length, frame-control byte, id, direction, port and payload, the filter accepts if and only if the frame is data or beacon and the id, direction and port are the receiver's own |
| ReceiveFilter.FrameControlExamples | control_status/common/db_raw_receive.c:47-48 | the frame-control test admits data (0x08), QoS data (0x88), beacon (0x80), authentication (0xB0), action (0xD0), RTS (0xB4) and ACK (0xD4) frames, and rejects probe requests (0x40), probe responses (0x50) and association requests (0x00) |
| ClassicBpf.Load | control_status/common/db_raw_receive.c:49-55 | a packet load yields a value exactly when it lies inside the frame |
| ClassicBpf.StepFacts | control_status/common/db_raw_receive.c:39-58 | one instruction moves to the next instruction or a jump target, faults exactly on an instruction the attach-time check refuses, halts otherwise only on a failed load (0) or at `ret #k` (k) |
| ClassicBpf.Execute | control_status/common/db_raw_receive.c:37-59 | the interpreter loop returns the verdict `Run` defines, after at most as many steps as the program has instructions |
| ClassicBpf.ValidRunReturns | control_status/common/db_raw_receive.c:68-73 | a program the attach-time check accepts ends at a `ret` (or a failed load) on every frame and never faults |
| ReceiveSocket.BindProtocol | control_status/common/db_raw_receive.c:106-113 | the binding uses `ETHER_TYPE` if and only if the mode is `'w'`, which is the protocol the socket was opened with |
| ReceiveSocket.SetBpf | control_status/common/db_raw_receive.c:73-80 | on success the socket carries the built filter and keeps its descriptor; on failure -1 is returned and the socket is closed |
| ReceiveSocket.BindSocket | control_status/common/db_raw_receive.c:98-119 | the descriptor survives exactly when the interface lookup and `bind` succeed on a valid descriptor, and the socket is then bound with the mode's protocol; on failure the only change is that the descriptor becomes -1, so the socket stays open if it was open |
| ReceiveSocket.OpenReceiveSocketOutcome | control_status/common/db_raw_receive.c:160-200 | about `OpenReceiveSocket`, the model of `open_receive_socket`: the process exits only when `SO_REUSEADDR` fails in mode `'w'`; the returned descriptor is the created one exactly when every call succeeds, and then the socket is open, bound with its own protocol, filtered by the built program in monitor mode, and promiscuous in mode `'w'` |
| ReceiveSocket.OpenReceiveSocketModes | control_status/common/db_raw_receive.c:168-197 | on every returned path of `OpenReceiveSocket`, successful or not: the socket was opened with `ETHER_TYPE` if and only if the mode is `'w'` (`SocketProtocol`), otherwise with `ETH_P_802_2`; a filter is present only when the mode is not `'w'` (`AttachesFilter`), and always once `SO_ATTACH_FILTER` succeeded there; promiscuous mode is requested exactly in mode `'w'` once `socket()` succeeded; a binding uses the socket's own protocol |
| ReceiveSocket.OpenReceiveSocketLeaks | control_status/common/db_raw_receive.c:98-118 | as written, a missing interface or a failed `bind` returns -1 while the created socket stays open |
| ReceiveSocket.BindSocketClosing | control_status/common/db_raw_receive.c:98-119 | the corrected binder returns the same descriptor as `bindsocket` and closes the socket whenever it returns -1 |
| ReceiveSocket.OpenReceiveSocketClosingCorrect | control_status/common/db_raw_receive.c:160-200 | with the corrected binder the outcome equals the original's on success and has the same descriptor on every path, and -1 never leaves the socket open |

## Left out

- The kernel calls `socket`, `setsockopt`, `ioctl`, `bind` and `close` become success or failure inputs (`ReceiveSocket.Kernel`) and their effect on the socket (`ReceiveSocket.Sock`). The `ioctl`s that set the promiscuous flag are recorded only as requested (`Sock.promiscuous`), because the source ignores their results.
- The `fcntl(F_GETFL)` / `fcntl(F_SETFL)` pair at lines 175-176 is not modelled: it writes back the flags it read, and its results are ignored.
- The interface name is not modelled. Only whether the interface exists is.
- `set_socket_nonblocking` is not modelled: on failure it falls off the end without returning a value.
- `set_socket_timeout` is not modelled: it only forwards to `setsockopt` and ignores the result.
- After the `exit(EXIT_FAILURE)` at line 186 the model stops at `Exited`. The exit's effect on the rest of the process is not modelled.
- The numeric value of `ETHER_TYPE` comes from db_protocol.h, which is not part of this model. The two protocols are the enumeration `ReceiveSocket.Protocol`.
- control_status/control/control_main_ground.c is not part of this model. That covers argument parsing, joystick polling and the calls into the RC and sending code.
- control_status/common/db_raw_receive.h holds only prototypes.
- `ClassicBpf.Step` interprets only the opcodes the template uses. Every other opcode is a fault, and the attach-time check, `Valid`, refuses programs that contain one.
- `ClassicBpf.Step` does not model the kernel's special load offsets: ancillary data at `SKF_AD_OFF` (-0x1000) and above, and negative link-layer and network offsets. The model reads such an offset as a large unsigned number past the end of any frame, so the load fails and the program returns 0. `Valid` does not inspect load offsets, so it accepts these programs. The template uses only small non-negative offsets.
- `ClassicBpf.Initial` starts the scratch memory at zero. The kernel refuses programs that read a cell before storing to it, so the initial contents are never observed.
- `ReceiveFilter.DataOrBeacon` states the test exactly as the program makes it: bit 0x08 or bit 0x80 of the frame-control byte. Bit 0x08 is the high type bit and bit 0x80 the high subtype bit, so the test admits every data frame (QoS data 0x88, null data 0x48) and every management or control frame with subtype 8 or above. Besides beacons (0x80), that includes authentication (0xB0), deauthentication (0xC0), action (0xD0), RTS (0xB4) and ACK (0xD4). Probe requests (0x40) and probe responses (0x50) are dropped (`ReceiveFilter.FrameControlExamples`).
- ReceiveFilter.CommIdOperand: at line 63, `new_comm_id[0]<<24` shifts a `uint8_t` promoted to signed `int`. For a first byte of 0x80 or more, that overflows `int`, which ISO C leaves undefined (C11 section 6.5.7, paragraph 4). The model gives the two's-complement bit pattern that compilers produce, which the unsigned 32-bit `k` field then holds. It does not model the undefined behaviour.
- The `comm_id` parameter of `open_receive_socket` is declared `uint8_t[6]`, but only its first four bytes are read. The model passes those 4 bytes (`CommId`).

## Findings

| source | as written | input that shows it | evidently intended | confidence | as-written member | corrected member |
|---|---|---|---|---|---|---|
| control_status/common/db_raw_receive.c:98-118 | `bindsocket` returns -1 when the interface lookup or `bind` fails, without closing the socket it was given; `open_receive_socket` then returns -1 and the descriptor is lost | monitor mode, `socket` returns 3, the filter attaches, and the interface does not exist: the result is -1 with descriptor 3 still open | close the socket on both failure paths, as `setBPF` does at line 77 | not executed | ReceiveSocket.OpenReceiveSocketLeaks | ReceiveSocket.OpenReceiveSocketClosingCorrect |

`setBPF` closes the socket before returning -1 (line 77); `bindsocket` returns
-1 on both of its failure paths (lines 101 and 117) without closing it, and line
198 then overwrites the only copy of the descriptor. The model follows the code
(`OpenReceiveSocket`) and gives the corrected sequence alongside it
(`OpenReceiveSocketClosing`).
