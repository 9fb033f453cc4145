/**
 * The row tags and type names of the `NodeType` enumeration. The enumeration's module is not part
 * of this model; its values are taken to be the literal strings that Classes/networkClass.py and
 * topology.py compare against ("LINK", "SWITCH") and the matching "ENDSTATION".
 */
module NodeTypes {

  const LinkTag: string := "LINK"
  const SwitchTag: string := "SWITCH"
  const EndStationTag: string := "ENDSTATION"

  /** The two device kinds a node can have. */
  datatype Kind = Switch | EndStation

  /** How a kind is rendered and stored as a type attribute. */
  function KindText(k: Kind): string
  {
    match k
    case Switch => SwitchTag
    case EndStation => EndStationTag
  }
}
