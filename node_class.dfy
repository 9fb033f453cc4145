/**
 * Classes/nodeClass.py: a device record with a name, a type and a port, each stored exactly as
 * given; the type is not checked against any device kind. topology.py defines the same class with
 * the same constructor and the same rendering, so both are this datatype.
 */
module NodeClass {
  import opened Wrappers
  import opened Text

  /** `Node(name, type, port)`. The `type` attribute is `deviceType` here; any string is accepted. */
  datatype Node = Node(name: string, deviceType: string, port: string)

  const PortLabel: string := ", Port: "

  /** `__str__`: "{name} ({type}, Port: {port})". */
  function Str(n: Node): string
  {
    n.name + " (" + n.deviceType + PortLabel + n.port + ")"
  }

  /**
   * Reads a `Str` rendering back: the name before the first " (", the type up to the first ", Port: ",
   * the port up to the closing ")".
   */
  function ParseStr(s: string): Option<Node>
  {
    var i := IndexOf(s, '(');
    if 1 <= i && i < |s| && s[i - 1] == ' ' && s[|s| - 1] == ')' then
      var inner := s[i + 1..|s| - 1];
      var j := IndexOf(inner, ',');
      if j + |PortLabel| <= |inner| && inner[j..j + |PortLabel|] == PortLabel then
        Some(Node(s[..i - 1], inner[..j], inner[j + |PortLabel|..]))
      else None
    else None
  }

  /**
   * The rendering begins with the name and ends with ")", and when the name holds no "(" and the
   * type no "," it gives back the name, the type and the port unchanged.
   */
  lemma StrRoundTrip(n: Node)
    requires '(' !in n.name && ',' !in n.deviceType
    ensures StartsWith(Str(n), n.name) && Str(n)[|Str(n)| - 1] == ')'
    ensures ParseStr(Str(n)) == Some(n)
  {
    var s := Str(n);
    var inner := n.deviceType + PortLabel + n.port;
    assert s == n.name + " (" + inner + ")";
    Bracketed(n.name, inner);
    var i := |n.name| + 1;
    assert s[i + 1..|s| - 1] == inner;
    Labelled(n.deviceType, n.port);
    assert s[..i - 1] == n.name;
  }

  /** Where the pieces of `kind + ", Port: " + port` sit when `kind` holds no ",". */
  lemma Labelled(kind: string, port: string)
    requires ',' !in kind
    ensures var inner := kind + PortLabel + port;
      IndexOf(inner, ',') == |kind| && |kind| + |PortLabel| <= |inner| &&
      inner[|kind|..|kind| + |PortLabel|] == PortLabel &&
      inner[..|kind|] == kind && inner[|kind| + |PortLabel|..] == port
  {
    var inner := kind + PortLabel + port;
    var rest := PortLabel + port;
    assert inner == kind + rest;
    IndexOfAppend(kind, rest, ',');
    assert IndexOf(rest, ',') == 0;
  }
}
