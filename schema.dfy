/**
 * The names of the JGroups subsystem schema 1.1, the management-model keys
 * the reader writes, the grammar level of each element, the host's
 * validation hooks, and the reader's error kinds.
 */
module Schema {

  /** The only namespace accepted for the children of the subsystem element. */
  const Namespace11 := "urn:jboss:domain:jgroups:1.1"

  // Element local names.
  const StackElement := "stack"
  const TransportElement := "transport"
  const ProtocolElement := "protocol"
  const PropertyElement := "property"

  // Attribute local names.
  const DefaultStackAttr := "default-stack"
  const NameAttr := "name"
  const TypeAttr := "type"
  const SharedAttr := "shared"
  const SocketBindingAttr := "socket-binding"
  const DiagnosticsSocketBindingAttr := "diagnostics-socket-binding"
  const DefaultExecutorAttr := "default-executor"
  const OobExecutorAttr := "oob-executor"
  const TimerExecutorAttr := "timer-executor"
  const ThreadFactoryAttr := "thread-factory"
  const SiteAttr := "site"
  const RackAttr := "rack"
  const MachineAttr := "machine"

  // Management-model keys and operation names.
  const SubsystemKey := "subsystem"
  const SubsystemName := "jgroups"
  const StackKey := "stack"
  const TransportKey := "transport"
  const TransportName := "TRANSPORT"
  const ProtocolKey := "protocol"
  const PropertyKey := "property"
  const ValueParam := "value"
  const AddOp := "add"
  const AddProtocolOp := "add-protocol"

  /** The element being parsed; each level has its own attribute schema. */
  datatype Level = Subsystem | Stack | Transport | Protocol | Property

  /** The attribute names the switch of each level's parser accepts. */
  function Recognized(level: Level): set<string>
  {
    match level
    case Subsystem => {DefaultStackAttr}
    case Stack => {NameAttr}
    case Transport =>
      {TypeAttr, SharedAttr, SocketBindingAttr, DiagnosticsSocketBindingAttr,
       DefaultExecutorAttr, OobExecutorAttr, TimerExecutorAttr, ThreadFactoryAttr,
       SiteAttr, RackAttr, MachineAttr}
    case Protocol => {TypeAttr, SocketBindingAttr}
    case Property => {NameAttr}
  }

  /** Levels whose parser rejects attributes that carry a namespace. */
  predicate NoNamespaceRequired(level: Level)
  {
    level == Subsystem || level == Stack
  }

  /**
   * What the host supplies: whether a transport or protocol class of the
   * given name loads and instantiates, and whether a resource attribute
   * definition accepts a value for the parameter of the given name.
   */
  datatype Host = Host(
    isTransportClass: string -> bool,
    isProtocolClass: string -> bool,
    accepts: (Level, string, string) -> bool)

  /**
   * Whether a recognized attribute's value passes the checks its parser
   * makes: the attribute definition's validator, preceded for a transport or
   * protocol type by the class check. The stack and property names are
   * stored without any check.
   */
  predicate Validated(host: Host, level: Level, name: string, value: string)
  {
    match level
    case Subsystem => host.accepts(level, name, value)
    case Stack => true
    case Transport => (name == TypeAttr ==> host.isTransportClass(value)) && host.accepts(level, name, value)
    case Protocol => (name == TypeAttr ==> host.isProtocolClass(value)) && host.accepts(level, name, value)
    case Property => true
  }

  /** The failures the reader reports; each ends the parse. */
  datatype Error =
    | UnexpectedAttribute(attribute: string)
    | UnexpectedElement(element: string)
    | MissingRequired(attributes: set<string>)
    | MissingRequiredElement(elements: set<string>)
    | InvalidAttributeValue(attribute: string, value: string)
    | TextOnlyExpected(element: string)
}
