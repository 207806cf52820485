/**
 * The IR node that implements `System.arraycopy` by a call to the generic
 * arraycopy stub: an immutable record of its five operands, with an int-typed
 * result (the stub's status, see ArrayCopyStatus) and a memory effect that
 * kills every location.
 */
module GenericArrayCopy {
  import opened Locations
  import ArrayCopyStatus

  /** An operand: a reference to the value node that produces it. */
  datatype ValueNode = ValueNode(id: nat)

  /** The kinds of edge through which one node may use another. */
  datatype InputType =
    | Value
    | State
    | Memory
    | Condition
    | Guard
    | Anchor
    | Association
    | Extension

  /**
   * The type of the value a node produces; only integer stamps matter here.
   * An integer stamp has a width and the range of values it admits.
   */
  datatype Stamp = IntegerStamp(bits: nat, lowerBound: int, upperBound: int)
  {
    /** The stamp admits `v`. */
    predicate Contains(v: int) {
      lowerBound <= v <= upperBound
    }
  }

  /** The stamp of a Java `int`: 32 bits, the full signed range. */
  const INT_STAMP: Stamp := IntegerStamp(32, ArrayCopyStatus.INT_MIN, ArrayCopyStatus.INT_MAX)

  datatype GenericArrayCopyCallNode = GenericArrayCopyCallNode(
    src: ValueNode,
    srcPos: ValueNode,
    dest: ValueNode,
    destPos: ValueNode,
    length: ValueNode)
  {
    function GetSource(): ValueNode {
      src
    }

    function GetSrcPos(): ValueNode {
      srcPos
    }

    function GetDestination(): ValueNode {
      dest
    }

    function GetDestPos(): ValueNode {
      destPos
    }

    function GetLength(): ValueNode {
      length
    }

    /** The input edges, in declaration order. */
    function Inputs(): seq<ValueNode> {
      [src, srcPos, dest, destPos, length]
    }

    /**
     * The location the node kills: all of memory, because the stub's write set
     * is not known statically.
     */
    function GetKilledLocationIdentity(): (l: LocationIdentity)
      ensures l.IsAny()
    {
      Any
    }

    /**
     * The stamp of the node's result: a Java `int`, which admits every status
     * the stub can return.
     */
    function ResultStamp(): (s: Stamp)
      ensures s.bits == 32
      ensures s.lowerBound == ArrayCopyStatus.INT_MIN && s.upperBound == ArrayCopyStatus.INT_MAX
      ensures forall w: ArrayCopyStatus.Int32 :: s.Contains(ArrayCopyStatus.ToInt32(w))
    {
      ResultStampHoldsEveryStatus();
      INT_STAMP
    }
  }

  /** Every 32-bit status word, read as a Java `int`, lies in the `int` stamp. */
  lemma ResultStampHoldsEveryStatus()
    ensures forall w: ArrayCopyStatus.Int32 :: INT_STAMP.Contains(ArrayCopyStatus.ToInt32(w))
  {
    forall w: ArrayCopyStatus.Int32
      ensures INT_STAMP.Contains(ArrayCopyStatus.ToInt32(w))
    {
      ArrayCopyStatus.ToInt32Range(w);
    }
  }

  /** Builds the node; each getter then returns the operand given in its position. */
  function NewGenericArrayCopyCallNode(
    src: ValueNode, srcPos: ValueNode, dest: ValueNode, destPos: ValueNode, length: ValueNode)
    : (n: GenericArrayCopyCallNode)
    ensures n.GetSource() == src
    ensures n.GetSrcPos() == srcPos
    ensures n.GetDestination() == dest
    ensures n.GetDestPos() == destPos
    ensures n.GetLength() == length
    ensures n.Inputs() == [src, srcPos, dest, destPos, length]
  {
    GenericArrayCopyCallNode(src, srcPos, dest, destPos, length)
  }

  /** The edge kinds through which other nodes may use this node. */
  function AllowedUsageTypes(): (ts: set<InputType>)
    ensures forall t :: t in ts <==> t == Memory || t == Value
  {
    {Memory, Value}
  }

  /** The node's operands determine it, and it determines its operands. */
  lemma NodeDeterminedByInputs(n: GenericArrayCopyCallNode, m: GenericArrayCopyCallNode)
    ensures n == m <==> n.Inputs() == m.Inputs()
  {
    if n.Inputs() == m.Inputs() {
      assert n.Inputs()[0] == m.Inputs()[0] && n.Inputs()[1] == m.Inputs()[1];
      assert n.Inputs()[2] == m.Inputs()[2] && n.Inputs()[3] == m.Inputs()[3];
      assert n.Inputs()[4] == m.Inputs()[4];
    }
  }

  /**
   * Whatever its operands, the node kills the same location, and that location
   * overlaps every other: no memory access may be moved across the node.
   */
  lemma KilledLocationOverlapsEverything(n: GenericArrayCopyCallNode, m: GenericArrayCopyCallNode, l: LocationIdentity)
    ensures n.GetKilledLocationIdentity() == m.GetKilledLocationIdentity()
    ensures n.GetKilledLocationIdentity().Overlaps(l)
    ensures l.Overlaps(n.GetKilledLocationIdentity())
  {
  }
}
