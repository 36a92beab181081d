# JGroups subsystem reader, schema 1.1

A model of `JGroupsSubsystemXMLReader_1_1`. This is the reader that turns the
`<subsystem>` element of the JGroups 1.1 schema into a flat, ordered list of
management operations. The grammar it reads:

- a `subsystem` with a `default-stack` attribute holds `stack` elements in the
  `urn:jboss:domain:jgroups:1.1` namespace;
- a `stack` with a `name` holds one `transport` first, then `protocol`
  elements;
- a `transport` or `protocol` with a `type` holds `property` elements whose
  text is the property's value.

Each element becomes an operation:

- `add` on `subsystem=jgroups`;
- `add` on the stack, transport and property addresses;
- `add-protocol` on the stack address itself, for a protocol.

An address is the parent's address with one (type, name) segment appended.

## How the model is built

**The document.** It is an element tree (`Stax.Element`): a namespace, a
local name, attributes in document order, child elements in document order,
and the text. The empty namespace stands for "no namespace".

**What the host decides.** Two checks depend on the host. They are passed in
as `Schema.Host`:

- whether a transport or protocol class of a given name loads and
  instantiates;
- whether an attribute definition's `parseAndSetParameter` accepts a value.

An accepted value is stored as written.

**Errors.** They are the datatype `Schema.Error`. The first error ends the
read.

**The parse methods.** They are imperative methods in module `Reader`. Each
one appends to a `Dmr.OperationList`, which is a class whose `items` field
the methods reassign. As in the Java reader:

- a stack collects its transport's and protocols' operations in a local list;
- a transport or protocol collects its properties' operations in a local
  list;
- each local list is appended after the element's own operation, once the
  element is complete.

Every method is proved against a function in module `ReaderSpec`. That
function gives the list the method leaves behind, starting from the list it
was handed, together with the failure, if any. `ReaderStructure`,
`ReaderProperties` and `Ordering` prove what the Java reader promises about those
functions:

- the operations and addresses each element produces;
- the attributes and child elements each element accepts;
- which error ends the read otherwise;
- what a failure leaves in the caller's list;
- that every operation's parent resource is created by an earlier operation.

**Behaviour of the reader the model keeps:**

- `parseProperty`'s name guard tests the operation node, which is never
  null. So a property without a name attribute is not rejected there, and the
  model gives its address a `property` segment with no name
  (`ReaderProperties.PropertyWithoutName`; see "Left out" for what the
  management library does with a null name).
- A failure does not empty the caller's list. `readElement` appends the
  subsystem operation before it reads any stack, and each stack appends its
  operations as soon as it completes, so they stay in the list when a later
  stack fails. Only the failing stack's own buffered operations are dropped.
- A property's text goes through the value definition's
  `parseAndSetParameter`, which can refuse it.
- The namespace of attributes is checked only at the subsystem and stack
  elements. The namespace of child elements is checked only for the
  subsystem's children.

## Model

Every cited path is `clustering/jgroups/src/main/java/org/jboss/as/clustering/jgroups/subsystem/JGroupsSubsystemXMLReader_1_1.java`.

| member | source | states |
|---|---|---|
| Attributes.ReadAttributes | clustering/jgroups/src/main/java/org/jboss/as/clustering/jgroups/subsystem/JGroupsSubsystemXMLReader_1_1.java:170-227 | The attribute loop returns the parameters that the reference definition `Read` gives: the first attribute the level does not accept decides the failure, and otherwise each value is stored under its name. |
| Attributes.ReadSucceeds | clustering/jgroups/src/main/java/org/jboss/as/clustering/jgroups/subsystem/JGroupsSubsystemXMLReader_1_1.java:63-76 | The attribute loop completes if and only if every attribute passes its level's namespace rule, is one of its level's names, and has a value its validator accepts. |
| Attributes.ReadFirstRejection | clustering/jgroups/src/main/java/org/jboss/as/clustering/jgroups/subsystem/JGroupsSubsystemXMLReader_1_1.java:170-227 | When every attribute before position i is accepted and the one at i is not, the loop fails with that attribute's rejection: UnexpectedAttribute for a namespace or name the level does not take, InvalidAttributeValue otherwise. |
| Attributes.ReadLastWins | clustering/jgroups/src/main/java/org/jboss/as/clustering/jgroups/subsystem/JGroupsSubsystemXMLReader_1_1.java:112-125 | After a completed loop, the value stored under a name is the value of the last attribute with that name, and a name that never occurs keeps what the map held before. |
| Attributes.ReadIsLastValues | clustering/jgroups/src/main/java/org/jboss/as/clustering/jgroups/subsystem/JGroupsSubsystemXMLReader_1_1.java:170-227 | A completed loop starting from no parameters yields exactly the map from each attribute name that occurs to its last value. |
| Attributes.LastValueNone | clustering/jgroups/src/main/java/org/jboss/as/clustering/jgroups/subsystem/JGroupsSubsystemXMLReader_1_1.java:111-129 | A name has no last value if and only if no attribute has that name, which is when the stack's name stays null. |
| Attributes.LastValueAt | clustering/jgroups/src/main/java/org/jboss/as/clustering/jgroups/subsystem/JGroupsSubsystemXMLReader_1_1.java:112-125 | If the attribute at position i has the name and none after it does, then its value is the last value. |
| Attributes.LastValueIndex | clustering/jgroups/src/main/java/org/jboss/as/clustering/jgroups/subsystem/JGroupsSubsystemXMLReader_1_1.java:112-125 | A last value is the value of some attribute with that name. |
| Dmr.OperationList.constructor | clustering/jgroups/src/main/java/org/jboss/as/clustering/jgroups/subsystem/JGroupsSubsystemXMLReader_1_1.java:109 | A new local operation list is empty. |
| Dmr.OperationList.Add | clustering/jgroups/src/main/java/org/jboss/as/clustering/jgroups/subsystem/JGroupsSubsystemXMLReader_1_1.java:82 | Adding an operation appends it at the end and changes nothing before it. |
| Dmr.OperationList.AddAll | clustering/jgroups/src/main/java/org/jboss/as/clustering/jgroups/subsystem/JGroupsSubsystemXMLReader_1_1.java:157-159 | Adding a local list appends all of its operations, in its order. |
| Reader.ReadElement | clustering/jgroups/src/main/java/org/jboss/as/clustering/jgroups/subsystem/JGroupsSubsystemXMLReader_1_1.java:56-104 | readElement leaves the caller's list and returns the failure exactly as `SubsystemOutcome` gives them for the list it was handed. |
| Reader.ParseStacks | clustering/jgroups/src/main/java/org/jboss/as/clustering/jgroups/subsystem/JGroupsSubsystemXMLReader_1_1.java:84-103 | The root's child loop reads each stack straight into the caller's list, as the child-loop function gives, and stops at the first child that is not a 1.1 stack or whose parse fails. |
| Reader.ParseStack | clustering/jgroups/src/main/java/org/jboss/as/clustering/jgroups/subsystem/JGroupsSubsystemXMLReader_1_1.java:106-160 | parseStack leaves the caller's list and returns the failure as `StackOutcome` gives them. |
| Reader.ParseProtocols | clustering/jgroups/src/main/java/org/jboss/as/clustering/jgroups/subsystem/JGroupsSubsystemXMLReader_1_1.java:142-153 | The stack's loop after the transport reads each protocol into the stack's local list, as the child-loop function gives. |
| Reader.ParseTransport | clustering/jgroups/src/main/java/org/jboss/as/clustering/jgroups/subsystem/JGroupsSubsystemXMLReader_1_1.java:162-251 | parseTransport leaves the list and returns the failure as `TransportOutcome` gives them. |
| Reader.ParseProtocol | clustering/jgroups/src/main/java/org/jboss/as/clustering/jgroups/subsystem/JGroupsSubsystemXMLReader_1_1.java:253-308 | parseProtocol leaves the list and returns the failure as `ProtocolOutcome` gives them. |
| Reader.ParseProperties | clustering/jgroups/src/main/java/org/jboss/as/clustering/jgroups/subsystem/JGroupsSubsystemXMLReader_1_1.java:233-245 | The property loop of a transport or protocol reads each property into the local list, as the child-loop function gives. |
| Reader.ParseProperty | clustering/jgroups/src/main/java/org/jboss/as/clustering/jgroups/subsystem/JGroupsSubsystemXMLReader_1_1.java:310-343 | parseProperty leaves the list and returns the failure as `PropertyOutcome` gives them. |
| ReaderStructure.CompleteAppends | clustering/jgroups/src/main/java/org/jboss/as/clustering/jgroups/subsystem/JGroupsSubsystemXMLReader_1_1.java:155-159 | Appending an element's own operation and then its local list gives the caller's list followed by what it would give an empty list. |
| ReaderStructure.StackAppends | clustering/jgroups/src/main/java/org/jboss/as/clustering/jgroups/subsystem/JGroupsSubsystemXMLReader_1_1.java:106-160 | What parseStack appends and the failure it reports do not depend on what the caller's list held. |
| ReaderStructure.TransportAppends | clustering/jgroups/src/main/java/org/jboss/as/clustering/jgroups/subsystem/JGroupsSubsystemXMLReader_1_1.java:162-251 | What parseTransport appends and the failure it reports do not depend on what the list held. |
| ReaderStructure.ProtocolAppends | clustering/jgroups/src/main/java/org/jboss/as/clustering/jgroups/subsystem/JGroupsSubsystemXMLReader_1_1.java:253-308 | What parseProtocol appends and the failure it reports do not depend on what the list held. |
| ReaderStructure.ElementAppends | clustering/jgroups/src/main/java/org/jboss/as/clustering/jgroups/subsystem/JGroupsSubsystemXMLReader_1_1.java:106-343 | Below the root, an element's parser only appends to the list it is given, and a failing element leaves that list exactly as it was. |
| ReaderStructure.ChildrenAppend | clustering/jgroups/src/main/java/org/jboss/as/clustering/jgroups/subsystem/JGroupsSubsystemXMLReader_1_1.java:142-153 | Below the root, a child loop only appends to its list, whatever the list held before. |
| ReaderStructure.SubsystemAppends | clustering/jgroups/src/main/java/org/jboss/as/clustering/jgroups/subsystem/JGroupsSubsystemXMLReader_1_1.java:56-104 | readElement only appends to the caller's list, whatever the list held before. |
| ReaderStructure.ChildrenPrefix | clustering/jgroups/src/main/java/org/jboss/as/clustering/jgroups/subsystem/JGroupsSubsystemXMLReader_1_1.java:84-103 | A child loop runs over the children before position i, then, unless that failed, continues from i on the same list. |
| ReaderStructure.UnexpectedChild | clustering/jgroups/src/main/java/org/jboss/as/clustering/jgroups/subsystem/JGroupsSubsystemXMLReader_1_1.java:142-153 | A child the loop does not dispatch ends it with UnexpectedElement, and the list keeps what the earlier children appended. |
| ReaderStructure.FailingChild | clustering/jgroups/src/main/java/org/jboss/as/clustering/jgroups/subsystem/JGroupsSubsystemXMLReader_1_1.java:142-153 | A child whose parse fails ends the loop with that failure. The list keeps what the earlier children appended and nothing of the failing child. |
| ReaderStructure.ChildrenDispatched | clustering/jgroups/src/main/java/org/jboss/as/clustering/jgroups/subsystem/JGroupsSubsystemXMLReader_1_1.java:84-103 | A child loop that completes accepted every child it met: each has the level's element name, and a stack is in the 1.1 namespace. |
| Ordering.ElementPlaced | clustering/jgroups/src/main/java/org/jboss/as/clustering/jgroups/subsystem/JGroupsSubsystemXMLReader_1_1.java:106-343 | Below the root, once the parent resource exists, every operation an element appends finds its own parent created before it. |
| Ordering.ChildrenPlaced | clustering/jgroups/src/main/java/org/jboss/as/clustering/jgroups/subsystem/JGroupsSubsystemXMLReader_1_1.java:142-153 | The same holds for the operations a child loop appends. |
| Ordering.ReadPlaced | clustering/jgroups/src/main/java/org/jboss/as/clustering/jgroups/subsystem/JGroupsSubsystemXMLReader_1_1.java:56-104 | After the whole read, successful or not, the list can be executed in order: each operation's parent resource is created by an earlier one, starting with the subsystem. An add-protocol creates protocol=type under the stack it addresses. |
| ReaderProperties.PropertyRead | clustering/jgroups/src/main/java/org/jboss/as/clustering/jgroups/subsystem/JGroupsSubsystemXMLReader_1_1.java:310-343 | A property is read if and only if its attributes are all `name`, it has no child elements and its text is an accepted value. It then appends exactly one add operation: addressed to the owner plus property=(the last name), with the text as `value`. |
| ReaderProperties.PropertyWithoutName | clustering/jgroups/src/main/java/org/jboss/as/clustering/jgroups/subsystem/JGroupsSubsystemXMLReader_1_1.java:328-337 | A property with no name attribute is not rejected: it appends an add operation whose property segment has no name. |
| ReaderProperties.PropertyFailures | clustering/jgroups/src/main/java/org/jboss/as/clustering/jgroups/subsystem/JGroupsSubsystemXMLReader_1_1.java:315-340 | A property fails, with the list unchanged, with UnexpectedAttribute at its first attribute other than `name`. With valid attributes, child elements give TextOnlyExpected and refused text gives InvalidAttributeValue. |
| ReaderProperties.PropertiesInOrder | clustering/jgroups/src/main/java/org/jboss/as/clustering/jgroups/subsystem/JGroupsSubsystemXMLReader_1_1.java:233-250 | A completed property loop appends exactly one operation per property child, in document order, each addressed under the owner. |
| ReaderProperties.TypedAttributes | clustering/jgroups/src/main/java/org/jboss/as/clustering/jgroups/subsystem/JGroupsSubsystemXMLReader_1_1.java:170-231 | After a transport's or protocol's attributes are read with a type, the parameters are each name's last value, every attribute name is one of the level's, and the type's class loads. |
| ReaderProperties.TransportRead | clustering/jgroups/src/main/java/org/jboss/as/clustering/jgroups/subsystem/JGroupsSubsystemXMLReader_1_1.java:162-251 | A transport that is read appends its add operation at stack + transport=TRANSPORT with every attribute's last value, and its type is a transport class. Then it appends one operation per property, in order, addressed under the transport. |
| ReaderProperties.ProtocolRead | clustering/jgroups/src/main/java/org/jboss/as/clustering/jgroups/subsystem/JGroupsSubsystemXMLReader_1_1.java:253-308 | A protocol that is read appends an add-protocol operation addressed to the stack itself, with every attribute's last value and a type that is a protocol class. Then it appends one operation per property, in order, addressed under stack + protocol=type. |
| ReaderProperties.TypedFailures | clustering/jgroups/src/main/java/org/jboss/as/clustering/jgroups/subsystem/JGroupsSubsystemXMLReader_1_1.java:170-231 | A transport or protocol fails with the list unchanged. At its first refused attribute: an unknown name gives UnexpectedAttribute; a type whose class does not load, or a value its definition refuses, gives InvalidAttributeValue. With all attributes accepted and no type, it gives MissingRequired(type). |
| ReaderProperties.StackRead | clustering/jgroups/src/main/java/org/jboss/as/clustering/jgroups/subsystem/JGroupsSubsystemXMLReader_1_1.java:106-160 | A stack that is read has at least one attribute, all unqualified `name`. Its first child is a transport and every later one a protocol. It appends its parameterless add at subsystem + stack=(the last name), then its transport's and protocols' operations. |
| ReaderProperties.StackFailures | clustering/jgroups/src/main/java/org/jboss/as/clustering/jgroups/subsystem/JGroupsSubsystemXMLReader_1_1.java:111-138 | A stack fails with the list unchanged: a qualified or non-`name` attribute gives UnexpectedAttribute, no attribute gives MissingRequired(name), and a first child that is absent or not a transport gives MissingRequiredElement(transport). |
| ReaderProperties.StackUnexpectedChild | clustering/jgroups/src/main/java/org/jboss/as/clustering/jgroups/subsystem/JGroupsSubsystemXMLReader_1_1.java:142-153 | A non-protocol child after the transport fails the stack with UnexpectedElement, and none of the stack's operations reach the caller's list. |
| ReaderProperties.SubsystemParams | clustering/jgroups/src/main/java/org/jboss/as/clustering/jgroups/subsystem/JGroupsSubsystemXMLReader_1_1.java:63-80 | When every root attribute is accepted and there is at least one, the subsystem's only parameter is default-stack, holding the last attribute's value. |
| ReaderProperties.SubsystemRead | clustering/jgroups/src/main/java/org/jboss/as/clustering/jgroups/subsystem/JGroupsSubsystemXMLReader_1_1.java:56-84 | The subsystem operation is appended if and only if the root has at least one attribute and all are accepted default-stack attributes. It carries the last default-stack, comes right after what the list held, and stays there whatever the stacks do. |
| ReaderProperties.SubsystemFailures | clustering/jgroups/src/main/java/org/jboss/as/clustering/jgroups/subsystem/JGroupsSubsystemXMLReader_1_1.java:63-80 | The root fails with the list unchanged: a qualified or non-default-stack attribute gives UnexpectedAttribute, a refused default-stack gives InvalidAttributeValue, and no attribute gives MissingRequired(default-stack). |
| ReaderProperties.SubsystemChildFailure | clustering/jgroups/src/main/java/org/jboss/as/clustering/jgroups/subsystem/JGroupsSubsystemXMLReader_1_1.java:84-103 | A child that is not a 1.1 stack gives UnexpectedElement, and a failing stack gives its failure. The list keeps the subsystem operation and the stacks before it, and nothing of a failing stack. |

## Left out

- `BundleInstallProcessor` (OSGi deployment) is not part of this model. It only drives external services.
- Class loading and instantiation of transport and protocol classes are left out. The host's `isTransportClass` and `isProtocolClass` stand for them.
- The `parseAndSetParameter` bodies of the resource attribute definitions are not part of this model. The host's `accepts` decides whether a value is taken. An accepted value is stored as written, with no trimming and no expression resolution.
- StAX event mechanics are left out: `nextTag`, `hasNext`, whitespace and comment skipping, and `XMLStreamException`. The input is the element tree they walk.
- Text inside subsystem, stack, transport and protocol elements is ignored by the model, where `nextTag` would reject non-whitespace text.
- The position an error is reported at is left out.
- `ModelNode` sealing (`protect`) and cloning are left out. Addresses and operations are immutable values.
- Enum lookups by name (`Attribute.forName`, `Element.forName`, `Namespace.forUri`) are left out. They are replaced by comparisons with the schema's string constants.
- Reader.ParseProperty: the model assumes `ModelNode.add` accepts a null property name and writes that segment's name as `None`. If the management library rejects the null, the real read aborts at line 335 with an unchecked exception, which the model does not capture.
