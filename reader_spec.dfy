/**
 * What the JGroups 1.1 subsystem reader does to a document: one function
 * per parse method, giving the list of operations that method leaves behind
 * when it starts from a given list, and the failure it throws, if any.
 */
module ReaderSpec {
  import opened Wrappers
  import opened Stax
  import opened Dmr
  import opened Schema
  import opened Attributes

  /**
   * What a parse method leaves behind: the list it appends to, and the
   * failure that ended it, if any.
   */
  datatype Outcome = Outcome(ops: seq<Operation>, failure: Option<Error>)

  /** The subsystem address, subsystem=jgroups. */
  function SubsystemAddress(): Address
  {
    [Segment(SubsystemKey, Some(SubsystemName))]
  }

  function StackAddress(subsystem: Address, name: string): Address
  {
    Child(subsystem, StackKey, Some(name))
  }

  /** The transport is a singleton: its segment name is fixed. */
  function TransportAddress(stack: Address): Address
  {
    Child(stack, TransportKey, Some(TransportName))
  }

  /** The address a protocol of the given type gets in the management model. */
  function ProtocolAddress(stack: Address, protocolType: string): Address
  {
    Child(stack, ProtocolKey, Some(protocolType))
  }

  function Lookup(params: map<string, string>, key: string): Option<string>
  {
    if key in params then Some(params[key]) else None
  }

  /** A failure thrown before anything was appended: the list is as it was. */
  function Stop(acc: seq<Operation>, x: Error): Outcome
  {
    Outcome(acc, Some(x))
  }

  /**
   * A resource whose nested operations were collected in a local list: on
   * success its own operation is appended, then the local list; on failure
   * the local list is dropped and the caller's list is as it was.
   */
  function Complete(acc: seq<Operation>, own: Operation, nested: Outcome): Outcome
  {
    if nested.failure.Some? then Outcome(acc, nested.failure) else Outcome(acc + [own] + nested.ops, None)
  }

  /** The local name of the element a level's parser reads. */
  function ElementName(level: Level): string
  {
    match level
    case Subsystem => "subsystem"
    case Stack => StackElement
    case Transport => TransportElement
    case Protocol => ProtocolElement
    case Property => PropertyElement
  }

  /**
   * Whether a child loop hands an element to the level's parser: the local
   * name must match, and a stack must also be in the 1.1 namespace.
   */
  predicate Dispatched(level: Level, child: Element)
  {
    child.localName == ElementName(level) && (level == Stack ==> child.namespace == Namespace11)
  }

  /** How deep in the grammar a level sits, counted from the properties up. */
  function Rank(level: Level): nat
  {
    match level
    case Subsystem => 3
    case Stack => 2
    case Transport => 1
    case Protocol => 1
    case Property => 0
  }

  /**
   * The parse method of the given level, reading element e into a list that
   * holds acc. parent is the address the caller passes in: the subsystem's
   * for a stack, the stack's for a transport or protocol, the transport's or
   * protocol's for a property (the subsystem's own address is fixed).
   */
  function Parse(host: Host, level: Level, parent: Address, e: Element, acc: seq<Operation>): Outcome
    decreases Rank(level), 1, 0
  {
    match level
    case Subsystem => SubsystemOutcome(host, e, acc)
    case Stack => StackOutcome(host, parent, e, acc)
    case Transport => TransportOutcome(host, parent, e, acc)
    case Protocol => ProtocolOutcome(host, parent, e, acc)
    case Property => PropertyOutcome(host, parent, e, acc)
  }

  /**
   * readElement: the subsystem's add operation, then each stack's operations,
   * appended as each stack completes; a failure keeps what came before it.
   */
  function SubsystemOutcome(host: Host, e: Element, acc: seq<Operation>): Outcome
    decreases Rank(Subsystem), 0, 0
  {
    match Read(host, Subsystem, map[], e.attributes)
    case Failure(x) => Stop(acc, x)
    case Success(params) =>
      if DefaultStackAttr !in params then Stop(acc, MissingRequired({DefaultStackAttr}))
      else ParseChildren(host, Stack, SubsystemAddress(), e.children, 0,
                         acc + [Operation(AddOp, SubsystemAddress(), params)])
  }

  /**
   * parseStack: the stack's add operation, with no parameters, then what its
   * transport and protocols produced in a local list, in document order.
   */
  function StackOutcome(host: Host, parent: Address, e: Element, acc: seq<Operation>): Outcome
    decreases Rank(Stack), 0, 0
  {
    match Read(host, Stack, map[], e.attributes)
    case Failure(x) => Stop(acc, x)
    case Success(params) =>
      if NameAttr !in params then Stop(acc, MissingRequired({NameAttr}))
      else if e.children == [] || e.children[0].localName != TransportElement
      then Stop(acc, MissingRequiredElement({TransportElement}))
      else
        var stack := StackAddress(parent, params[NameAttr]);
        var transport := Parse(host, Transport, stack, e.children[0], []);
        if transport.failure.Some? then Outcome(acc, transport.failure)
        else Complete(acc, Operation(AddOp, stack, map[]),
                      ParseChildren(host, Protocol, stack, e.children, 1, transport.ops))
  }

  /** parseTransport: the transport's add operation, then its properties'. */
  function TransportOutcome(host: Host, stack: Address, e: Element, acc: seq<Operation>): Outcome
    decreases Rank(Transport), 0, 0
  {
    match Read(host, Transport, map[], e.attributes)
    case Failure(x) => Stop(acc, x)
    case Success(params) =>
      if TypeAttr !in params then Stop(acc, MissingRequired({TypeAttr}))
      else Complete(acc, Operation(AddOp, TransportAddress(stack), params),
                    ParseChildren(host, Property, TransportAddress(stack), e.children, 0, []))
  }

  /**
   * parseProtocol: an add-protocol operation addressed to the stack itself,
   * then its properties', addressed under protocol=type.
   */
  function ProtocolOutcome(host: Host, stack: Address, e: Element, acc: seq<Operation>): Outcome
    decreases Rank(Protocol), 0, 0
  {
    match Read(host, Protocol, map[], e.attributes)
    case Failure(x) => Stop(acc, x)
    case Success(params) =>
      if TypeAttr !in params then Stop(acc, MissingRequired({TypeAttr}))
      else Complete(acc, Operation(AddProtocolOp, stack, params),
                    ParseChildren(host, Property, ProtocolAddress(stack, params[TypeAttr]), e.children, 0, []))
  }

  /**
   * parseProperty: one add operation carrying the element's text as its
   * value. A missing name is not rejected: the property segment is left
   * without a name.
   */
  function PropertyOutcome(host: Host, owner: Address, e: Element, acc: seq<Operation>): Outcome
  {
    match Read(host, Property, map[], e.attributes)
    case Failure(x) => Stop(acc, x)
    case Success(params) =>
      if e.children != [] then Stop(acc, TextOnlyExpected(e.localName))
      else if !host.accepts(Property, ValueParam, e.text) then Stop(acc, InvalidAttributeValue(ValueParam, e.text))
      else Outcome(acc + [Operation(AddOp, Child(owner, PropertyKey, Lookup(params, NameAttr)),
                                    map[ValueParam := e.text])], None)
  }

  /**
   * A child loop from position from on, reading into a list that holds acc:
   * stacks inside the subsystem, protocols after a stack's transport,
   * properties inside a transport or protocol. Each child is parsed straight
   * into the list; the first failure ends the loop.
   */
  function ParseChildren(host: Host, level: Level, parent: Address, children: seq<Element>, from: nat,
                         acc: seq<Operation>): Outcome
    decreases Rank(level), 2, |children| - from
  {
    if |children| <= from then Outcome(acc, None)
    else if !Dispatched(level, children[from]) then Stop(acc, UnexpectedElement(children[from].localName))
    else
      var o := Parse(host, level, parent, children[from], acc);
      if o.failure.Some? then o else ParseChildren(host, level, parent, children, from + 1, o.ops)
  }
}
