/**
 * The document the reader consumes, as the tree a pull parser walks.
 * A namespace of "" stands for "no namespace".
 */
module Stax {

  /** An attribute as the stream reader reports it at one index. */
  datatype Attribute = Attribute(namespace: string, localName: string, value: string)

  /**
   * An element: its qualified name, its attributes in document order, its
   * child elements in document order, and its character content (what
   * getElementText returns when there are no child elements).
   */
  datatype Element = Element(
    namespace: string,
    localName: string,
    attributes: seq<Attribute>,
    children: seq<Element>,
    text: string)
}
