/** The oneM2M request printer, and what the agent's parser finds in its output. */
module XmlRequest {
  import opened Wrappers
  import opened CStrings
  import opened XmlItems
  import opened XmlParser
  import opened Collections
  import opened XmlRoot

  const TP_SDK_SUCCESS := 0
  const TP_SDK_NOT_SUPPORTED := -13
  const TP_SDK_INVALID_PARAMETER := -14

  const ATTR_BUFFER := 512
  const PAYLOAD_BUFFER := 1024

  const CREATE := 1
  const RETRIEVE := 2
  const UPDATE := 3
  const DELETE := 4

  const CONTENT_TYPE := Attribute("cty", Some("application/vnd.onem2m-prsp+xml"))
  const XML_FOOTER_V1 := "</m2m:req>"

  /** XML_HEADER_V1, given the opening tag. */
  function XmlHeader(root: string): string {
    Tag(root, false) + Element(CONTENT_TYPE)
  }

  // ---------- printing ----------

  /** `<name>value</name>`; nothing for a null value. */
  function Element(a: Attribute): string {
    if a.value.Some? then Tag(a.name, false) + a.value.value + Tag(a.name, true) else ""
  }

  /** The element as it fits the buffer it is printed into. */
  function Piece(a: Attribute): string {
    if a.value.Some? then Snprintf(ATTR_BUFFER, Element(a)) else ""
  }

  function Pieces(attrs: seq<Attribute>): string {
    if attrs == [] then "" else Pieces(attrs[..|attrs| - 1]) + Piece(attrs[|attrs| - 1])
  }

  predicate NoNul(attrs: seq<Attribute>) {
    forall a :: a in attrs ==> '\0' !in a.name && (a.value.Some? ==> '\0' !in a.value.value)
  }

  function PcBlock(attrs: seq<Attribute>, resource: string): string {
    Snprintf(PAYLOAD_BUFFER,
      Tag("pc", false) + Tag(resource, false) + Pieces(attrs) + Tag(resource, true) + Tag("pc", true))
  }

  /** SetElement: appends the non-null attributes in order. */
  method SetElement(payload: array<char>, attrs: seq<Attribute>)
    requires Terminated(payload[..]) && NoNul(attrs)
    requires |CStr(payload[..])| + |Pieces(attrs)| < payload.Length
    modifies payload
    ensures Terminated(payload[..]) && CStr(payload[..]) == old(CStr(payload[..])) + Pieces(attrs)
  {
    ghost var before := CStr(payload[..]);
    for i := 0 to |attrs|
      invariant Terminated(payload[..]) && CStr(payload[..]) == before + Pieces(attrs[..i])
    {
      PiecesPrefix(attrs, i);
      if attrs[i].value.Some? {
        var attr := Snprintf(ATTR_BUFFER, Element(attrs[i]));
        PieceHasNoNul(attrs[i]);
        Append(payload, attr);
      }
      Assoc(before, Pieces(attrs[..i]), Piece(attrs[i]));
    }
    assert attrs[..|attrs|] == attrs;
  }

  /** strncat of a whole string. */
  method Append(payload: array<char>, text: string)
    requires Terminated(payload[..]) && '\0' !in text
    requires |CStr(payload[..])| + |text| < payload.Length
    modifies payload
    ensures Terminated(payload[..]) && CStr(payload[..]) == old(CStr(payload[..])) + text
  {
    assert text[..|text|] == text;
    CStrIs(text, text);
    StrNCat(payload, text, |text|);
  }

  lemma PieceHasNoNul(a: Attribute)
    requires '\0' !in a.name && (a.value.Some? ==> '\0' !in a.value.value)
    ensures '\0' !in Piece(a)
  {
  }

  lemma {:induction false} PiecesHaveNoNul(attrs: seq<Attribute>)
    requires NoNul(attrs)
    ensures '\0' !in Pieces(attrs)
  {
    if attrs != [] {
      PieceHasNoNul(attrs[|attrs| - 1]);
      PiecesHaveNoNul(attrs[..|attrs| - 1]);
    }
  }

  lemma {:induction false} PiecesPrefix(attrs: seq<Attribute>, i: nat)
    requires i < |attrs|
    ensures Pieces(attrs[..i + 1]) == Pieces(attrs[..i]) + Piece(attrs[i])
    ensures |Pieces(attrs[..i + 1])| <= |Pieces(attrs)|
    decreases |attrs| - i
  {
    assert attrs[..i + 1][..i] == attrs[..i];
    if i + 1 < |attrs| {
      PiecesPrefix(attrs, i + 1);
    } else {
      assert attrs[..i + 1] == attrs;
    }
  }

  /** SetPCElement: the attributes in a buffer of their own, wrapped in `pc` and the resource. */
  method SetPCElement(payload: array<char>, attrs: seq<Attribute>, resource: string)
    requires Terminated(payload[..]) && NoNul(attrs) && '\0' !in resource
    requires |Pieces(attrs)| < ATTR_BUFFER
    requires |CStr(payload[..])| + |PcBlock(attrs, resource)| < payload.Length
    modifies payload
    ensures Terminated(payload[..])
    ensures CStr(payload[..]) == old(CStr(payload[..])) + PcBlock(attrs, resource)
  {
    var pc := BuildPc(attrs, resource);
    Append(payload, pc);
  }

  method BuildPc(attrs: seq<Attribute>, resource: string) returns (pc: string)
    requires NoNul(attrs) && '\0' !in resource && |Pieces(attrs)| < ATTR_BUFFER
    ensures pc == PcBlock(attrs, resource) && '\0' !in pc
  {
    var attr := EmptyBuffer(ATTR_BUFFER);
    SetElement(attr, attrs);
    assert CStr(attr[..]) == Pieces(attrs);
    var n := StrLen(attr);
    pc := Snprintf(PAYLOAD_BUFFER,
      Tag("pc", false) + Tag(resource, false) + attr[..n] + Tag(resource, true) + Tag("pc", true));
    PcHasNoNul(attrs, resource);
  }

  /** A zeroed buffer. */
  method EmptyBuffer(size: nat) returns (buffer: array<char>)
    requires size > 0
    ensures fresh(buffer) && buffer.Length == size && Terminated(buffer[..]) && CStr(buffer[..]) == ""
  {
    buffer := new char[size](_ => '\0');
    assert buffer[..][0] == '\0';
    CStrIs(buffer[..], "");
  }

  lemma PcHasNoNul(attrs: seq<Attribute>, resource: string)
    requires NoNul(attrs) && '\0' !in resource
    ensures '\0' !in PcBlock(attrs, resource)
  {
    PiecesHaveNoNul(attrs);
  }

  // ---------- requests ----------

  type Field = Option<string>

  datatype Resource =
    | CSEBase(ni: Field)
    | Node(ni: Field, dKey: Field, hcl: Field, mga: Field)
    | RemoteCSE(ni: Field, nm: Field, dKey: Field, passCode: Field, cst: Field, poa: Field, rr: Field, nl: Field)
    | Container(ni: Field, nm: Field, dKey: Field, lbl: Field)
    | MgmtCmd(ni: Field, nm: Field, dKey: Field, uKey: Field, cmt: Field, exe: Field, ext: Field, lbl: Field)
    | ContentInstance(ni: Field, dKey: Field, cnf: Field, con: Field, lbl: Field)
    | LocationPolicy(ni: Field, nm: Field, dKey: Field, los: Field, lbl: Field)
    | AE(ni: Field, dKey: Field, api: Field, apn: Field)
    | AreaNwkInfo(ni: Field, nm: Field, dKey: Field, mgd: Field, ant: Field, ldv: Field)
    | MgmtCmdResult(ni: Field, dKey: Field, exr: Field, exs: Field)

  function TypeCode(r: Resource): nat {
    match r
    case AE(_, _, _, _) => 2
    case Container(_, _, _, _) => 3
    case ContentInstance(_, _, _, _, _) => 4
    case CSEBase(_) => 5
    case MgmtCmdResult(_, _, _, _) => 8
    case LocationPolicy(_, _, _, _, _) => 10
    case MgmtCmd(_, _, _, _, _, _, _, _) => 12
    case AreaNwkInfo(_, _, _, _, _, _) => 13
    case Node(_, _, _, _) => 14
    case RemoteCSE(_, _, _, _, _, _, _, _) => 16
  }

  /** RESOURCE_STR; a CSEBase has none. */
  function ResourceStr(r: Resource): string {
    match r
    case AE(_, _, _, _) => "ae"
    case Container(_, _, _, _) => "cnt"
    case ContentInstance(_, _, _, _, _) => "cin"
    case CSEBase(_) => ""
    case MgmtCmdResult(_, _, _, _) => "exin"
    case LocationPolicy(_, _, _, _, _) => "lcp"
    case MgmtCmd(_, _, _, _, _, _, _, _) => "mgc"
    case AreaNwkInfo(_, _, _, _, _, _) => "ani"
    case Node(_, _, _, _) => "nod"
    case RemoteCSE(_, _, _, _, _, _, _, _) => "csr"
  }

  /** The attributes in front of the `pc` block. */
  function FrontAttributes(r: Resource): seq<Attribute> {
    match r
    case CSEBase(ni) => [Attribute("fr", ni)]
    case Node(ni, dKey, _, _) => [Attribute("fr", ni), Attribute("nm", ni), Attribute("dKey", dKey)]
    case RemoteCSE(ni, nm, dKey, passCode, _, _, _, _) =>
      [Attribute("fr", ni), Attribute("passCode", passCode), Attribute("dKey", dKey), Attribute("nm", nm)]
    case Container(ni, nm, dKey, _) => [Attribute("fr", ni), Attribute("nm", nm), Attribute("dKey", dKey)]
    case MgmtCmd(ni, nm, dKey, uKey, _, _, _, _) =>
      [Attribute("fr", ni), Attribute("nm", nm), Attribute("dKey", dKey), Attribute("uKey", uKey)]
    case ContentInstance(ni, dKey, _, _, _) => [Attribute("fr", ni), Attribute("dKey", dKey)]
    case LocationPolicy(ni, nm, dKey, _, _) => [Attribute("fr", ni), Attribute("dKey", dKey), Attribute("nm", nm)]
    case AE(ni, dKey, _, _) => [Attribute("fr", ni), Attribute("dKey", dKey)]
    case AreaNwkInfo(ni, nm, dKey, _, _, _) => [Attribute("fr", ni), Attribute("nm", nm), Attribute("dKey", dKey)]
    case MgmtCmdResult(ni, dKey, _, _) => [Attribute("fr", ni), Attribute("dKey", dKey)]
  }

  /** The attributes of the `pc` block. */
  function PcAttributes(r: Resource): seq<Attribute> {
    match r
    case CSEBase(_) => []
    case Node(ni, _, hcl, mga) => [Attribute("ni", ni), Attribute("hcl", hcl), Attribute("mga", mga)]
    case RemoteCSE(ni, _, _, _, cst, poa, rr, nl) =>
      [Attribute("cst", cst), Attribute("csi", ni), Attribute("poa", poa), Attribute("rr", rr), Attribute("nl", nl)]
    case Container(_, _, _, lbl) => [Attribute("lbl", lbl)]
    case MgmtCmd(_, _, _, _, cmt, exe, ext, lbl) =>
      [Attribute("cmt", cmt), Attribute("exe", exe), Attribute("ext", ext), Attribute("lbl", lbl)]
    case ContentInstance(_, _, cnf, con, lbl) => [Attribute("cnf", cnf), Attribute("con", con), Attribute("lbl", lbl)]
    case LocationPolicy(ni, _, _, los, _) => [Attribute("los", los), Attribute("lbl", ni)]
    case AE(_, _, api, apn) => [Attribute("api", api), Attribute("apn", apn)]
    case AreaNwkInfo(_, _, _, mgd, ant, ldv) => [Attribute("mgd", mgd), Attribute("ant", ant), Attribute("ldv", ldv)]
    case MgmtCmdResult(_, _, exr, exs) => [Attribute("exr", exr), Attribute("exs", exs)]
  }

  /** A CSEBase has no `pc` block, and a DELETE has none unless it is for an execInstance. */
  predicate HasPc(r: Resource, operation: nat) {
    r.MgmtCmdResult? || (!r.CSEBase? && operation != DELETE)
  }

  function Decimal(n: nat): (s: string)
    ensures s != "" && '\0' !in s && '<' !in s
  {
    if n < 10 then ["0123456789"[n]] else Decimal(n / 10) + ["0123456789"[n % 10]]
  }

  function HeaderAttributes(resourceType: nat, operation: nat, to: string, ri: string): seq<Attribute> {
    var op := Attribute("op", Some(Snprintf(2, Decimal(operation))));
    if operation == CREATE then
      [op, Attribute("to", Some(to)), Attribute("ty", Some(Snprintf(6, Decimal(resourceType)))), Attribute("ri", Some(ri))]
    else
      [op, Attribute("to", Some(to)), Attribute("ri", Some(ri))]
  }

  /** Whether a resource type takes an operation. */
  function CheckOperation(resourceType: nat, operation: nat): int {
    if resourceType == 5 then (if operation == RETRIEVE then TP_SDK_SUCCESS else TP_SDK_NOT_SUPPORTED)
    else if resourceType in {2, 3, 10, 12, 13, 14, 16} then
      (if operation == RETRIEVE then TP_SDK_NOT_SUPPORTED else TP_SDK_SUCCESS)
    else if resourceType == 4 then
      (if operation == RETRIEVE || operation == UPDATE then TP_SDK_NOT_SUPPORTED else TP_SDK_SUCCESS)
    else if resourceType == 8 then (if operation == UPDATE then TP_SDK_SUCCESS else TP_SDK_NOT_SUPPORTED)
    else TP_SDK_NOT_SUPPORTED
  }

  function CheckAttributes(resourceType: nat, operation: nat, to: Field, ri: Field, pc: Option<Resource>): int {
    var rc := CheckOperation(resourceType, operation);
    if rc == TP_SDK_SUCCESS && (to.None? || ri.None? || pc.None?) then TP_SDK_INVALID_PARAMETER else rc
  }

  /** Which resources take which operation: only a CSEBase is retrieved, an execInstance is only updated,
      a contentInstance never; all else is created, updated and deleted. */
  lemma SupportedOperations(r: Resource)
    ensures CheckOperation(TypeCode(r), RETRIEVE) == TP_SDK_SUCCESS <==> r.CSEBase?
    ensures CheckOperation(TypeCode(r), UPDATE) == TP_SDK_SUCCESS <==> !r.CSEBase? && !r.ContentInstance?
    ensures CheckOperation(TypeCode(r), CREATE) == TP_SDK_SUCCESS <==> !r.CSEBase? && !r.MgmtCmdResult?
    ensures CheckOperation(TypeCode(r), DELETE) == TP_SDK_SUCCESS <==> !r.CSEBase? && !r.MgmtCmdResult?
  {
  }

  /** A resource type the printer does not know is never accepted; the code says what is wrong. */
  lemma CheckedRequests(resourceType: nat, operation: nat, to: Field, ri: Field, pc: Option<Resource>)
    ensures CheckAttributes(resourceType, operation, to, ri, pc) == TP_SDK_SUCCESS ==>
      to.Some? && ri.Some? && pc.Some? && exists r: Resource :: TypeCode(r) == resourceType
    ensures CheckAttributes(resourceType, operation, to, ri, pc) == TP_SDK_INVALID_PARAMETER <==>
      CheckOperation(resourceType, operation) == TP_SDK_SUCCESS && (to.None? || ri.None? || pc.None?)
    ensures CheckAttributes(resourceType, operation, to, ri, pc) == TP_SDK_NOT_SUPPORTED <==>
      CheckOperation(resourceType, operation) != TP_SDK_SUCCESS
  {
    assert TypeCode(AE(None, None, None, None)) == 2 && TypeCode(Container(None, None, None, None)) == 3;
    assert TypeCode(ContentInstance(None, None, None, None, None)) == 4 && TypeCode(CSEBase(None)) == 5;
    assert TypeCode(MgmtCmdResult(None, None, None, None)) == 8 && TypeCode(LocationPolicy(None, None, None, None, None)) == 10;
    assert TypeCode(MgmtCmd(None, None, None, None, None, None, None, None)) == 12;
    assert TypeCode(AreaNwkInfo(None, None, None, None, None, None)) == 13 && TypeCode(Node(None, None, None, None)) == 14;
    assert TypeCode(RemoteCSE(None, None, None, None, None, None, None, None)) == 16;
  }

  /** The text form of an attribute. */
  lemma ElementText(a: Attribute)
    ensures a.value.Some? ==> Element(a) == "<" + a.name + ">" + a.value.value + "</" + a.name + ">"
  {
  }

  /** The `pc` block of a request: its attributes and the resource they belong to. */
  datatype PcPart = PcPart(attributes: seq<Attribute>, resource: string)

  /** The whole payload of a request with the given attributes. */
  function PayloadOf(xmlHeader: string, header: seq<Attribute>, front: seq<Attribute>, pc: Option<PcPart>): string {
    xmlHeader + Pieces(header) + Pieces(front) + PcText(pc) + XML_FOOTER_V1
  }

  function PcText(pc: Option<PcPart>): string {
    if pc.Some? then PcBlock(pc.value.attributes, pc.value.resource) else ""
  }

  /** The texts are C strings and fit the buffers they are printed into. */
  predicate FitsBuffers(xmlHeader: string, header: seq<Attribute>, front: seq<Attribute>, pc: Option<PcPart>) {
    NoNul(header) && NoNul(front) && |PayloadOf(xmlHeader, header, front, pc)| < PAYLOAD_BUFFER &&
    (pc.Some? ==> NoNul(pc.value.attributes) && '\0' !in pc.value.resource && |Pieces(pc.value.attributes)| < ATTR_BUFFER)
  }

  function PcOf(r: Resource, operation: nat): Option<PcPart> {
    if HasPc(r, operation) then Some(PcPart(PcAttributes(r), ResourceStr(r))) else None
  }

  function Payload(r: Resource, operation: nat, to: string, ri: string): string {
    PayloadOf(XmlHeader(ROOT), HeaderAttributes(TypeCode(r), operation, to, ri), FrontAttributes(r), PcOf(r, operation))
  }

  predicate Printable(r: Resource, operation: nat, to: string, ri: string) {
    FitsBuffers(XmlHeader(ROOT), HeaderAttributes(TypeCode(r), operation, to, ri), FrontAttributes(r), PcOf(r, operation))
  }

  /** SetHeader. */
  method SetHeader(payload: array<char>, xmlHeader: string, resourceType: nat, operation: nat, to: string, ri: string)
    requires Terminated(payload[..]) && '\0' !in xmlHeader && NoNul(HeaderAttributes(resourceType, operation, to, ri))
    requires |CStr(payload[..])| + |xmlHeader| + |Pieces(HeaderAttributes(resourceType, operation, to, ri))| < payload.Length
    modifies payload
    ensures Terminated(payload[..])
    ensures CStr(payload[..]) ==
      old(CStr(payload[..])) + xmlHeader + Pieces(HeaderAttributes(resourceType, operation, to, ri))
  {
    Append(payload, xmlHeader);
    var op := Snprintf(2, Decimal(operation));
    if operation == CREATE {
      var ty := Snprintf(6, Decimal(resourceType));
      SetElement(payload, [Attribute("op", Some(op)), Attribute("to", Some(to)), Attribute("ty", Some(ty)), Attribute("ri", Some(ri))]);
    } else {
      SetElement(payload, [Attribute("op", Some(op)), Attribute("to", Some(to)), Attribute("ri", Some(ri))]);
    }
  }

  /** tp_oneM2M_V1_Request. `published` is the result of publishing the payload. */
  method Request(resourceType: nat, operation: nat, to: Field, ri: Field, pc: Option<Resource>, published: int)
    returns (rc: int, sent: Option<string>)
    requires pc.Some? ==> TypeCode(pc.value) == resourceType
    requires CheckAttributes(resourceType, operation, to, ri, pc) == TP_SDK_SUCCESS ==>
      Printable(pc.value, operation, to.value, ri.value)
    ensures CheckAttributes(resourceType, operation, to, ri, pc) != TP_SDK_SUCCESS ==>
      rc == CheckAttributes(resourceType, operation, to, ri, pc) && sent == None
    ensures CheckAttributes(resourceType, operation, to, ri, pc) == TP_SDK_SUCCESS ==>
      rc == published && sent == Some(Payload(pc.value, operation, to.value, ri.value))
  {
    rc := CheckAttributes(resourceType, operation, to, ri, pc);
    if rc != TP_SDK_SUCCESS { return rc, None; }
    var r := pc.value;
    sent := None;
    HeaderHasNoNul();
    var text := Print(XmlHeader(ROOT), resourceType, operation, to.value, ri.value, FrontAttributes(r), PcOf(r, operation));
    return published, Some(text);
  }

  method Print(xmlHeader: string, resourceType: nat, operation: nat, to: string, ri: string,
               front: seq<Attribute>, pc: Option<PcPart>) returns (text: string)
    requires '\0' !in xmlHeader && FitsBuffers(xmlHeader, HeaderAttributes(resourceType, operation, to, ri), front, pc)
    ensures text == PayloadOf(xmlHeader, HeaderAttributes(resourceType, operation, to, ri), front, pc)
  {
    var payload := EmptyBuffer(PAYLOAD_BUFFER);
    SetHeader(payload, xmlHeader, resourceType, operation, to, ri);
    assert "" + xmlHeader == xmlHeader;
    PrintBody(payload, front, pc);
    text := PrintFooter(payload);
  }

  /** What follows the header: the attributes and the `pc` block. */
  method PrintBody(payload: array<char>, front: seq<Attribute>, pc: Option<PcPart>)
    requires Terminated(payload[..]) && NoNul(front)
    requires pc.Some? ==> NoNul(pc.value.attributes) && '\0' !in pc.value.resource && |Pieces(pc.value.attributes)| < ATTR_BUFFER
    requires |CStr(payload[..])| + |Pieces(front)| + |PcText(pc)| < payload.Length
    modifies payload
    ensures Terminated(payload[..]) && CStr(payload[..]) == old(CStr(payload[..])) + Pieces(front) + PcText(pc)
  {
    SetElement(payload, front);
    if pc.Some? {
      SetPCElement(payload, pc.value.attributes, pc.value.resource);
    }
  }

  /** SetFooter, and the finished text. */
  method PrintFooter(payload: array<char>) returns (text: string)
    requires Terminated(payload[..]) && |CStr(payload[..])| + |XML_FOOTER_V1| < payload.Length
    modifies payload
    ensures text == old(CStr(payload[..])) + XML_FOOTER_V1
  {
    assert '\0' !in XML_FOOTER_V1;
    Append(payload, XML_FOOTER_V1);
    var n := StrLen(payload);
    text := payload[..n];
  }

  /** The opening tag is one a search can tell from every attribute name. */
  lemma RootIsTagName()
    ensures TagName(ROOT) && '\0' !in ROOT && |ROOT| > 6
  {
    RootIsClean();
  }

  lemma HeaderHasNoNul()
    ensures '\0' !in XmlHeader(ROOT)
  {
    RootIsClean();
    ContentTypeIsPlain();
  }

  lemma ContentTypeIsPlain()
    ensures '\0' !in Element(CONTENT_TYPE) && '<' !in CONTENT_TYPE.value.value
  {
    assert Clean("application/vnd") && Clean(".onem2m-prsp+xml");
    assert CONTENT_TYPE.value.value == "application/vnd" + ".onem2m-prsp+xml";
  }
}
