/** The management-model values the reader produces: addresses and operations. */
module Dmr {
  import opened Wrappers

  /**
   * One (type, name) pair of an address. The name is None when the address
   * builder is handed a null name (a property element without a name).
   */
  datatype Segment = Segment(key: string, value: Option<string>)

  /** An ordered path of segments, from the subsystem down. */
  type Address = seq<Segment>

  /** The address of a child resource: a copy of the parent with one segment appended. */
  function Child(parent: Address, key: string, value: Option<string>): Address
  {
    parent + [Segment(key, value)]
  }

  /** An operation: its name, the address it applies to and its string parameters. */
  datatype Operation = Operation(name: string, address: Address, params: map<string, string>)

  /** A list of operations that parse methods append to. */
  class OperationList {
    var items: seq<Operation>

    constructor ()
      ensures items == []
    {
      items := [];
    }

    method Add(op: Operation)
      modifies this
      ensures items == old(items) + [op]
    {
      items := items + [op];
    }

    /** Appends every operation of other, in its order. */
    method AddAll(other: OperationList)
      requires other != this
      modifies this
      ensures items == old(items) + other.items
    {
      for i := 0 to |other.items|
        invariant items == old(items) + other.items[..i]
      {
        Add(other.items[i]);
      }
    }
  }
}
