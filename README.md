# Generic arraycopy call node and pre-heap reservation arithmetic

This project models two small parts of the Graal compiler and the SubstrateVM
runtime:

- `GenericArrayCopyCallNode`, the IR node that implements `System.arraycopy`
  by calling the generic arraycopy stub. The node is an immutable record of five
  operands: source, source position, destination, destination position and
  length. Its result is a Java `int`. It kills every memory location. Other
  nodes may use it as a Memory input or as a Value input. The stub does not
  throw. It returns a status: `0` when the copy succeeded, and otherwise the
  number of elements it copied, xor'd with `-1`.
- `DynamicMethodAddressResolutionHeapSupport`, which sizes the memory reserved
  below the heap. The size is the required byte count rounded up to the heap's
  preferred alignment. The mapping starts at the heap base minus the unrounded
  required byte count.

Files:

- `location_identity.dfy` (module `Locations`): abstract memory locations.
  `Any` is a distinct value that overlaps every location.
- `array_copy_node.dfy` (module `GenericArrayCopy`): the node as a datatype,
  with its getters, its killed location, its result stamp and its allowed
  usage types.
- `array_copy_status.dfy` (module `ArrayCopyStatus`): the status word as a
  `bv32`, with `Encode` and `Decode` between it and a `CopyOutcome`, plus the
  round trips.
- `pre_heap.dfy` (module `PreHeap`): unsigned 64-bit words, `RoundUp`,
  wrapping `Subtract`, and the two reservation functions with their bounds.

The source of `PointerUtils.roundUp` is not part of this model. `RoundUp`
assumes it computes `(x + unit - 1) / unit * unit`, and requires `unit > 0`
and no unsigned overflow (`RoundUpFits`). The required byte count, the alignment and
the heap base come from `getRequiredPreHeapMemoryInBytes`,
`Heap.getPreferredAddressSpaceAlignment` and `Isolates.getHeapBase`. None of
them is part of this model, so all three are parameters.

`org.graalvm.word.LocationIdentity` is not part of this model either. Its
overlap rule (`Locations.LocationIdentity.Overlaps`) is an assumption about
`LocationIdentity.overlaps`: `Any` overlaps every location, and other
locations overlap only themselves. The node itself never tests overlap; it
only returns `any()`.

## Model

| member | source | states |
|---|---|---|
| `GenericArrayCopy.NewGenericArrayCopyCallNode` | compiler/src/jdk.graal.compiler/src/jdk/graal/compiler/hotspot/replacements/arraycopy/GenericArrayCopyCallNode.java:70-97 | each getter returns the operand passed in the matching constructor position (src, srcPos, dest, destPos, length), and the input edges list them in that order |
| `GenericArrayCopy.NodeDeterminedByInputs` | compiler/src/jdk.graal.compiler/src/jdk/graal/compiler/hotspot/replacements/arraycopy/GenericArrayCopyCallNode.java:64-77 | the record is determined by its five operands in order: two records are equal exactly when their inputs are equal |
| `GenericArrayCopy.GenericArrayCopyCallNode.GetKilledLocationIdentity` | compiler/src/jdk.graal.compiler/src/jdk/graal/compiler/hotspot/replacements/arraycopy/GenericArrayCopyCallNode.java:99-102 | the killed location is `any` |
| `GenericArrayCopy.KilledLocationOverlapsEverything` | compiler/src/jdk.graal.compiler/src/jdk/graal/compiler/hotspot/replacements/arraycopy/GenericArrayCopyCallNode.java:99-102 | every node kills the same location whatever its operands, and that location overlaps every location in both directions, so no memory access may be reordered across the node |
| `GenericArrayCopy.GenericArrayCopyCallNode.ResultStamp` | compiler/src/jdk.graal.compiler/src/jdk/graal/compiler/hotspot/replacements/arraycopy/GenericArrayCopyCallNode.java:71 | the result stamp is the 32-bit Java `int` stamp, with bounds `Integer.MIN_VALUE` and `Integer.MAX_VALUE`, and it admits every 32-bit status word the stub can return (the intrinsic's `int` return at :105) |
| `GenericArrayCopy.ResultStampHoldsEveryStatus` | compiler/src/jdk.graal.compiler/src/jdk/graal/compiler/hotspot/replacements/arraycopy/GenericArrayCopyCallNode.java:71 | every status word, read as a Java `int`, lies within the `int` stamp of the node's result |
| `GenericArrayCopy.AllowedUsageTypes` | compiler/src/jdk.graal.compiler/src/jdk/graal/compiler/hotspot/replacements/arraycopy/GenericArrayCopyCallNode.java:60 | other nodes may use this node as a Memory input or a Value input, and through no other edge kind |
| `ArrayCopyStatus.Complement` | compiler/src/jdk.graal.compiler/src/jdk/graal/compiler/hotspot/replacements/arraycopy/GenericArrayCopyCallNode.java:50-51 | xor with `-1` equals `-x - 1` in 32-bit arithmetic |
| `ArrayCopyStatus.ComplementFlipsEveryBit` | compiler/src/jdk.graal.compiler/src/jdk/graal/compiler/hotspot/replacements/arraycopy/GenericArrayCopyCallNode.java:50-51 | the complement shares no bit with the word, and together they cover all 32 bits |
| `ArrayCopyStatus.ComplementFlipsSign` | compiler/src/jdk.graal.compiler/src/jdk/graal/compiler/hotspot/replacements/arraycopy/GenericArrayCopyCallNode.java:50-51 | the complement of a non-negative int is negative, and the other way round |
| `ArrayCopyStatus.ComplementInvolution` | compiler/src/jdk.graal.compiler/src/jdk/graal/compiler/hotspot/replacements/arraycopy/GenericArrayCopyCallNode.java:50-51 | xor with `-1` applied twice gives the word back |
| `ArrayCopyStatus.ToInt32Range` | compiler/src/jdk.graal.compiler/src/jdk/graal/compiler/hotspot/replacements/arraycopy/GenericArrayCopyCallNode.java:105 | the two's-complement value of a status word lies in `[Integer.MIN_VALUE, Integer.MAX_VALUE]` |
| `ArrayCopyStatus.ToInt32` | compiler/src/jdk.graal.compiler/src/jdk/graal/compiler/hotspot/replacements/arraycopy/GenericArrayCopyCallNode.java:105 | the two's-complement value of a status word is negative exactly when its sign bit is set |
| `ArrayCopyStatus.Encode` | compiler/src/jdk.graal.compiler/src/jdk/graal/compiler/hotspot/replacements/arraycopy/GenericArrayCopyCallNode.java:50-53 | the stub's status is `0` exactly for success; a copied count is sent as its complement |
| `ArrayCopyStatus.Decode` | compiler/src/jdk.graal.compiler/src/jdk/graal/compiler/hotspot/replacements/arraycopy/GenericArrayCopyCallNode.java:50-53 | every 32-bit status decodes: it means success exactly when it is `0`, and otherwise a count other than `-1` |
| `ArrayCopyStatus.DecodeEncode` | compiler/src/jdk.graal.compiler/src/jdk/graal/compiler/hotspot/replacements/arraycopy/GenericArrayCopyCallNode.java:50-53 | decoding the status of any expressible outcome gives that outcome back, so the copied count is recovered |
| `ArrayCopyStatus.EncodeDecode` | compiler/src/jdk.graal.compiler/src/jdk/graal/compiler/hotspot/replacements/arraycopy/GenericArrayCopyCallNode.java:50-53 | every status word is the encoding of what it decodes to |
| `ArrayCopyStatus.DecodeInjective` | compiler/src/jdk.graal.compiler/src/jdk/graal/compiler/hotspot/replacements/arraycopy/GenericArrayCopyCallNode.java:50-53 | distinct statuses decode to distinct outcomes, so each status has exactly one meaning |
| `ArrayCopyStatus.MinusOneMeansNothingCopied` | compiler/src/jdk.graal.compiler/src/jdk/graal/compiler/hotspot/replacements/arraycopy/GenericArrayCopyCallNode.java:50-51 | status `-1` reports a failure with zero elements copied |
| `ArrayCopyStatus.StubFailureIsNegative` | compiler/src/jdk.graal.compiler/src/jdk/graal/compiler/hotspot/replacements/arraycopy/GenericArrayCopyCallNode.java:50-53 | for every non-negative count the stub can report, the status is negative, so it is never `0` and never mistaken for success |
| `ArrayCopyStatus.StubStatusIffNonPositive` | compiler/src/jdk.graal.compiler/src/jdk/graal/compiler/hotspot/replacements/arraycopy/GenericArrayCopyCallNode.java:50-53 | a status decodes to success or a non-negative count exactly when it is `0` or negative |
| `PreHeap.PreHeapMemoryBytes` | substratevm/src/com.oracle.svm.core/src/com/oracle/svm/core/code/DynamicMethodAddressResolutionHeapSupport.java:59-65 | the pre-heap size is at least the required byte count, less than one alignment unit above it, and a multiple of the alignment |
| `PreHeap.PreHeapMappingStartAddress` | substratevm/src/com.oracle.svm.core/src/com/oracle/svm/core/code/DynamicMethodAddressResolutionHeapSupport.java:67-71 | start address plus required bytes is the heap base modulo 2^64; the start lies at or below the heap base exactly when the required bytes fit below it |
| `PreHeap.Subtract` | substratevm/src/com.oracle.svm.core/src/com/oracle/svm/core/code/DynamicMethodAddressResolutionHeapSupport.java:70 | word subtraction wraps: adding the subtrahend back gives the minuend modulo 2^64 |
| `PreHeap.RoundUpBounds` | substratevm/src/com.oracle.svm.core/src/com/oracle/svm/core/code/DynamicMethodAddressResolutionHeapSupport.java:64 | rounding up yields a multiple of the unit in `[x, x + unit)` |
| `PreHeap.RoundUpAligned` | substratevm/src/com.oracle.svm.core/src/com/oracle/svm/core/code/DynamicMethodAddressResolutionHeapSupport.java:64 | a value that is already a multiple of the unit is left unchanged |
| `PreHeap.RoundUpLeast` | substratevm/src/com.oracle.svm.core/src/com/oracle/svm/core/code/DynamicMethodAddressResolutionHeapSupport.java:64 | no multiple of the unit at or above `x` lies below the rounded value |
| `PreHeap.PreHeapMemoryBytesAligned` | substratevm/src/com.oracle.svm.core/src/com/oracle/svm/core/code/DynamicMethodAddressResolutionHeapSupport.java:60-64 | an already aligned required byte count is reserved exactly |
| `PreHeap.PreHeapMemoryBytesIdempotent` | substratevm/src/com.oracle.svm.core/src/com/oracle/svm/core/code/DynamicMethodAddressResolutionHeapSupport.java:60-64 | rounding the pre-heap size a second time changes nothing |
| `PreHeap.PreHeapMemoryBytesLeast` | substratevm/src/com.oracle.svm.core/src/com/oracle/svm/core/code/DynamicMethodAddressResolutionHeapSupport.java:60-64 | the pre-heap size is the smallest aligned size that holds the required bytes |
| `PreHeap.PreHeapIsWholeBlocks` | substratevm/src/com.oracle.svm.core/src/com/oracle/svm/core/code/DynamicMethodAddressResolutionHeapSupport.java:62-64 | the pre-heap size is a whole number of alignment blocks, and one block fewer would not hold the required bytes |
| `PreHeap.ReservationKeepsHeapAlignment` | substratevm/src/com.oracle.svm.core/src/com/oracle/svm/core/code/DynamicMethodAddressResolutionHeapSupport.java:62-64 | when the rounded size fits below the heap base, the start of the reservation lies on an alignment boundary exactly when the heap base does, which is the room to align the heap that the comment at :62 asks for |
| `PreHeap.StartAddressInsideReservation` | substratevm/src/com.oracle.svm.core/src/com/oracle/svm/core/code/DynamicMethodAddressResolutionHeapSupport.java:60-71 | when the required bytes fit below the heap base, the mapping starts at `heapBase - required`, inside `[heapBase - preHeapBytes, heapBase]`, less than one alignment unit above the reservation's lower end |

## Left out

- `NativeImageBuildClient.java` is not modelled. It is socket and JSON I/O: it routes server lines to stdout and stderr and returns an exit status.
- The Graal graph framework is not modelled: `NodeClass`, `AbstractMemoryCheckpoint`, the `@Input` edge machinery, `StampFactory` and `Lowerable`. The node is a plain record, and its inputs are value-node references.
- Node identity is not modelled. The Java node is a graph node with its own identity. Two call nodes with the same five operands are two separate copies. Two equal records here are not the same graph node.
- The node's cost annotations (`CYCLES_UNKNOWN`, `SIZE_UNKNOWN`) carry no behaviour and are not modelled.
- The body of the `genericArraycopy` intrinsic is machine code. Only its documented status contract is modelled.
- The callers that turn a nonzero status into an `ArrayStoreException` are not in the modelled files. The choice among `CheckcastArrayCopyCallNode`, `ArrayCopyCallNode` and this node is not either.
- `ArrayCopyStatus.ToInt32`: only its sign and its range are stated. The exact integer value of `x ^ -1` is stated in 32-bit arithmetic (`Complement`), not through the integer reading.
- `isEnabled`, `get`, `initialize`, `getRequiredPreHeapMemoryInBytes` and `install` are lookups or abstract methods with no body. They are left out. The required byte count is a parameter.
- The alignment reaches `roundUp` through `WordFactory.unsigned` applied to an `int`. The model takes it as a positive word and does not model that conversion.
- `PreHeap.PreHeapMemoryBytes`: the case where `required + alignment - 1` overflows 64 bits, or where the alignment is 0, is excluded by the precondition of `RoundUp`. The model does not say what `PointerUtils.roundUp` does then.
- `getRequiredPreHeapMemoryInBytes` is called separately by `getDynamicMethodAddressResolverPreHeapMemoryBytes` and by `getPreHeapMappingStartAddress`. The model, in `PreHeap.StartAddressInsideReservation`, assumes both calls return the same value.
- The `@Fold` and `@Uninterruptible` annotations are not modelled. Both computations are pure functions of their parameters.
