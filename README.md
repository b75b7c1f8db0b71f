# fiemap: the FIEMAP extent-map query, modelled in Dafny

The Go package `fiemap` wraps an open file in `FiemapFile` and asks Linux for
the file's extent map with the `FS_IOC_FIEMAP` ioctl. `FieMap(offset, length)`
issues one ioctl after another and collects the extents each one reports. The
loop ends only when a batch holds an extent flagged `FIEMAP_EXTENT_LAST`, or
when a call fails. Each call (`fiemap`) builds a buffer of 251 extent slots and
places the `struct fiemap` request header in the last 32 bytes of slot 0, so
the extents the kernel writes after the header land in slots 1 to 250.

The model has four modules:

- `FiemapAbi` (`abi.dfy`): the constants, the two C structs and their byte
  layouts, the ioctl number encoding, and the overlay of the header on the
  tail of an extent slot.
- `Kernel` (`kernel.dfy`): the kernel's side of one ioctl. Which extents it
  reports is an oracle, meaning any function from the header it reads to a
  reply. It never reports more than the 250 extents it was given room for.
- `Pagination` (`pagination.dfy`): the paging protocol as functions. `Run`
  gives the queries issued and the final result. `Follows` describes the same
  protocol call by call, and two lemmas prove the two descriptions agree in
  both directions. Further lemmas prove consequences of the protocol.
- `FiemapFile` (`fiemap_file.dfy`): `FieMap` and `fiemap` as imperative
  methods over an `array<Extent>` buffer. Each is proved equal to the
  protocol functions. `Fallocate` and `PunchHole` are modelled as the
  requests they hand to fallocate(2).

A run of `FieMap` talks to the file once per call. The file is modelled as a
script: the k-th ioctl is answered by the k-th kernel function of the script.
`FieMap` requires the script to be long enough for the enumeration to end
(`Halts`). Without that the Go loop can run forever, and
`NoStopNeverHalts` shows when.

Go's `uint64` arithmetic wraps around. The model writes the wrap out as
`Wrap(x) = x mod 2^64` on every update of `offset` and `length`.

Two points where the code is followed rather than a reading of the loop as
"stop when the range is used up" (both are proved as lemmas):
- An empty batch does not stop the loop. The same query is issued again
  (`EmptyBatchRepeatsQuery`).
- The remaining `length` is never checked for termination. After a batch that
  uses it up without the LAST flag, the next query asks for length 0
  (`ExhaustedLengthKeepsQuerying`).

## Model

| member | source | states |
|---|---|---|
| FiemapFile.FieMap | fiemap.go:80-102 | the result and the ghost list of queries issued are exactly those of the protocol `Run` from `(offset, length)`, where length 0 becomes FIEMAP_MAX_OFFSET; the loop ends because each call consumes one kernel of a script that `Halts` |
| FiemapFile.ScanBatch | fiemap.go:93-99 | after scanning a batch, the EOF flag is set iff some extent carries FIEMAP_EXTENT_LAST, and the new (offset, length) is the old one advanced and shrunk by the batch's total length modulo 2^64 |
| FiemapFile.FiemapCall | fiemap.go:104-122 | the result is exactly the kernel's error, or the batch the kernel reports for the header {start, length, FIEMAP_FLAG_SYNC, room for 250 extents}, taken from slots 1..1+MappedExtents and never including the header slot; it has at most 250 extents |
| Kernel.Ioctl | fiemap.go:116-120 | the kernel reads the header at byte offset `ptr`; a command other than FS_IOC_FIEMAP fails with ENOTTY; on an error nothing is written; on success MappedExtents is set and the extents are written from the slot after the header on, and nothing else in the buffer changes |
| FiemapFile.Fallocate | fiemap.go:125-127 | fallocate is called with mode 0 (neither KEEP_SIZE nor PUNCH_HOLE) on the given range |
| FiemapFile.PunchHole | fiemap.go:129-132 | fallocate is called with exactly KEEP_SIZE and PUNCH_HOLE set, and no other flag, on the given range |
| Pagination.EffectiveLength | fiemap.go:83-85 | the effective length is never 0; a nonzero length is kept and 0 means FIEMAP_MAX_OFFSET |
| Pagination.Run | fiemap.go:86-101 | a halting enumeration issues at least one and at most as many queries as the script has kernels, and its first query is the initial one |
| Pagination.RunFollows | fiemap.go:86-101 | `Run` satisfies the call-by-call description: every query but the last got a reply without error and without LAST, and the next query is the previous one advanced by that batch; the last reply is an error (the result is that error) or carries LAST (the result is all batches concatenated in order) |
| Pagination.FollowsIsRun | fiemap.go:86-101 | conversely, any outcome that satisfies the call-by-call description is the outcome of `Run`, and the script halts |
| Pagination.NextQuerySnoc | fiemap.go:97-98 | advancing by a batch extended with one extent equals advancing by the batch and then by that extent, each step wrapping modulo 2^64 |
| Pagination.EmptyBatchRepeatsQuery | fiemap.go:86-100 | an empty, error-free batch neither ends the enumeration nor moves it: the next query equals the current one |
| Pagination.ExhaustedLengthKeepsQuerying | fiemap.go:93-99 | a batch of one extent covering the whole remaining length without LAST is followed by another query, for length 0 from start + length (mod 2^64) |
| Pagination.NoStopNeverHalts | fiemap.go:86-96 | if no reply is ever an error or carries LAST, no script is long enough for the enumeration to end |
| Pagination.FinalReply | fiemap.go:86-96 | the reply that ends a halting enumeration is an error or a batch carrying LAST |
| Pagination.FailsOnlyWithFinalError | fiemap.go:87-90 | the enumeration fails iff its final reply is an error, with exactly that error; extents gathered before are dropped |
| Pagination.FinalBatchKeptWhole | fiemap.go:91-96 | on success the final reply is a batch that carries LAST and ends the result whole, including any extents after the flagged one |
| Pagination.AdvanceIgnoresHoles | fiemap.go:97 | the start advances by the sum of the extent lengths, not to the end of the last extent, so after a batch with a hole the next query starts before the end of the range already reported |
| FiemapAbi.Wrap | fiemap.go:97-98 | wrapping leaves a value that already fits in a uint64 unchanged |
| FiemapAbi.FiemapOffsets | fiemap.go:49-58 | with natural alignment the fields of struct fiemap lie at bytes 0, 8, 16, 20, 24 and 28, and the struct is 32 bytes (FiemapSize) |
| FiemapAbi.ExtentOffsets | fiemap.go:60-68 | with natural alignment the fields of struct fiemap_extent lie at bytes 0, 8, 16, 24, 32, 40, 44, 48 and 52, and the struct is 56 bytes (ExtentSize) |
| FiemapAbi.FiemapLayout | fiemap.go:49-58 | struct fiemap has no padding: each field starts where the previous one ends, and its size is the sum of its field widths, 32 |
| FiemapAbi.ExtentLayout | fiemap.go:60-68 | struct fiemap_extent has no padding: each field starts where the previous one ends, and its size is the sum of its field widths, 56 |
| FiemapAbi.HeaderOverlaysSlotTail | fiemap.go:106-110 | the header placed ExtentSize - FiemapSize = 24 bytes into slot 0 ends exactly where slot 1 begins; its six fields coincide, offset and width, with the extent fields Reserved64[0..1], Flags and Reserved[0..2] of slot 0 |
| FiemapAbi.WithHeader | fiemap.go:110-114 | writing a header into a slot makes the slot read back as that header and leaves the slot's Logical, Physical and Length untouched |
| FiemapAbi.WithOwnHeader | fiemap.go:110 | writing back the header a slot already holds changes nothing |
| FiemapAbi.IOC | fiemap.go:14-15 | an ioctl number built from direction, type, number and argument size decodes back to those four parts |
| FiemapAbi.FsIocFiemapEncoding | fiemap.go:14-15 | FS_IOC_FIEMAP is `_IOWR('f', 11, struct fiemap)`: read/write, type 'f', number 11 and argument size 32 |
| FiemapAbi.FallocateModes | fiemap.go:22-37 | the mode PunchHole passes, KEEP_SIZE or PUNCH_HOLE, is 3, and FIEMAP_FLAGS_COMPAT is SYNC or XATTR, also 3 |

## Left out

- Kernel.Ioctl: on an error the model writes nothing back, whereas Linux may still copy fm_flags and fm_mapped_extents into the header. FiemapCall discards the buffer on an error, so no result depends on it. The ENOTTY branch for another request number is never taken, because FiemapCall always passes FS_IOC_FIEMAP.
- The ioctl and fallocate system calls themselves: the kernel's answer to FS_IOC_FIEMAP is an oracle, and the effect of fallocate on the file is not modelled, only the request it receives.
- The data flush that FIEMAP_FLAG_SYNC asks the kernel for: it happens in the kernel and does not change the protocol.
- FiemapFile.FieMap: runs that never end are not modelled. The method requires a script on which the enumeration halts. `NoStopNeverHalts` shows that without an error or a LAST flag no script is long enough.
- Go's slice-bounds panic in `fiemap` when MappedExtents exceeds 250 cannot occur in the model, because the kernel never maps more extents than fm_extent_count.
- The `unsafe.Pointer` arithmetic is modelled as a byte offset into an array of extent slots. The header is a view over fields of slot 0, as proved in `HeaderOverlaysSlotTail`, rather than raw memory.
- The `fmt.Printf` debug output in `fiemap` is output only and is left out.
- The `os.File` wrapper (`FiemapFile`, `NewFiemapFile`) holds only a file descriptor, which is replaced by the kernel oracle.
- Declared constants that no modelled operation uses are kept in `FiemapAbi` only as the source's declarations: FIEMAP_FLAG_CACHE, every FIEMAP_EXTENT_* flag except FIEMAP_EXTENT_LAST, FALLOC_FL_NO_HIDE_STALE and SEEK_SET, SEEK_CUR, SEEK_END, SEEK_DATA and SEEK_HOLE. FIEMAP_FLAG_XATTR enters only through FIEMAP_FLAGS_COMPAT. The source spells FALLOC_FL_NO_HIDE_STALE as FALLOC_FL_NO_HIDE_STAE; the model uses the kernel's name.
- main.go, the command-line driver that writes random blocks, punches holes and prints the map, is not part of this model.
