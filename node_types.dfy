/**
 The three node kinds of the LAN. The same enumeration serves twice: as the
 tag of the Java class a node was built as (`Node`, `WorkStation`,
 `Printer`) and as the value of its `oldType` byte (`NodeType.NODE`,
 `NodeType.WORKSTATION`, `NodeType.PRINTER`). The two are independent
 fields of a node; nothing forces them to agree.
 */
module NodeTypes {
  datatype NodeType = Node | WorkStation | Printer
}
