/** What a search of a printed request finds, field by field: the printed names and what they mean. */
module XmlFields {
  import opened Wrappers
  import opened StringSearch
  import opened XmlItems
  import opened XmlParser
  import opened XmlRequest
  import opened XmlRoundTrip
  import XmlRoot

  // ---------- names that differ ----------

  lemma Apart(a: string, b: string, i: nat)
    requires i < |a| && i < |b| && a[i] != b[i]
    ensures a != b
  {
  }

  lemma HeaderNamesApart()
    ensures "op" != "to" && "op" != "ty" && "op" != "ri" && "to" != "ty"
    ensures "to" != "ri" && "ty" != "ri" && "op" != "fr" && "op" != "nm"
    ensures "to" != "fr" && "to" != "nm" && "ty" != "fr" && "ty" != "nm"
    ensures "ri" != "fr" && "ri" != "nm"
  {
    Apart("op", "to", 0);
    Apart("op", "ty", 0);
    Apart("op", "ri", 0);
    Apart("to", "ty", 1);
    Apart("to", "ri", 0);
    Apart("ty", "ri", 0);
    Apart("op", "fr", 0);
    Apart("op", "nm", 0);
    Apart("to", "fr", 0);
    Apart("to", "nm", 0);
    Apart("ty", "fr", 0);
    Apart("ty", "nm", 0);
    Apart("ri", "fr", 0);
    Apart("ri", "nm", 0);
  }

  lemma FrontNamesApart()
    ensures "fr" != "nm" && "dKey" != "uKey"
  {
    Apart("fr", "nm", 0);
    Apart("dKey", "uKey", 0);
  }

  lemma FrontApartFromPc()
    ensures "fr" != "ni" && "fr" != "rr" && "fr" != "nl" && "nm" != "ni"
    ensures "nm" != "rr" && "nm" != "nl"
  {
    Apart("fr", "ni", 0);
    Apart("fr", "rr", 0);
    Apart("fr", "nl", 0);
    Apart("nm", "ni", 1);
    Apart("nm", "rr", 0);
    Apart("nm", "nl", 1);
  }

  lemma TypeApartFromPc()
    ensures "ty" != "ni" && "ty" != "rr" && "ty" != "nl"
  {
    Apart("ty", "ni", 0);
    Apart("ty", "rr", 0);
    Apart("ty", "nl", 0);
  }

  lemma PcTagApart()
    ensures "pc" != "op" && "pc" != "to" && "pc" != "ty" && "pc" != "ri"
    ensures "pc" != "fr" && "pc" != "nm" && "pc" != "ni" && "pc" != "rr"
    ensures "pc" != "nl"
  {
    Apart("pc", "op", 0);
    Apart("pc", "to", 0);
    Apart("pc", "ty", 0);
    Apart("pc", "ri", 0);
    Apart("pc", "fr", 0);
    Apart("pc", "nm", 0);
    Apart("pc", "ni", 0);
    Apart("pc", "rr", 0);
    Apart("pc", "nl", 0);
  }

  lemma AEApart()
    ensures "ae" != "op" && "ae" != "to" && "ae" != "ty" && "ae" != "ri"
    ensures "ae" != "fr" && "ae" != "nm" && "exin" != "dKey" && "exin" != "uKey"
  {
    Apart("ae", "op", 0);
    Apart("ae", "to", 0);
    Apart("ae", "ty", 0);
    Apart("ae", "ri", 0);
    Apart("ae", "fr", 0);
    Apart("ae", "nm", 0);
    Apart("exin", "dKey", 0);
    Apart("exin", "uKey", 0);
  }

  lemma NodeNamesApart()
    ensures "hcl" != "mga" && "nod" != "hcl" && "nod" != "mga"
  {
    Apart("hcl", "mga", 0);
    Apart("nod", "hcl", 0);
    Apart("nod", "mga", 0);
  }

  lemma RemoteCSENamesApart()
    ensures "cst" != "csi" && "cst" != "poa" && "csi" != "poa" && "rr" != "nl"
    ensures "csr" != "cst" && "csr" != "csi" && "csr" != "poa"
  {
    Apart("cst", "csi", 2);
    Apart("cst", "poa", 0);
    Apart("csi", "poa", 0);
    Apart("rr", "nl", 0);
    Apart("csr", "cst", 2);
    Apart("csr", "csi", 2);
    Apart("csr", "poa", 0);
  }

  lemma MgmtCmdNamesApart()
    ensures "cmt" != "exe" && "cmt" != "ext" && "cmt" != "lbl" && "exe" != "ext"
    ensures "exe" != "lbl" && "ext" != "lbl" && "mgc" != "cmt" && "mgc" != "exe"
    ensures "mgc" != "ext" && "mgc" != "lbl"
  {
    Apart("cmt", "exe", 0);
    Apart("cmt", "ext", 0);
    Apart("cmt", "lbl", 0);
    Apart("exe", "ext", 2);
    Apart("exe", "lbl", 0);
    Apart("ext", "lbl", 0);
    Apart("mgc", "cmt", 0);
    Apart("mgc", "exe", 0);
    Apart("mgc", "ext", 0);
    Apart("mgc", "lbl", 0);
  }

  lemma ContentInstanceNamesApart()
    ensures "cnf" != "con" && "cnf" != "lbl" && "con" != "lbl" && "cin" != "cnf"
    ensures "cin" != "con" && "cin" != "lbl"
  {
    Apart("cnf", "con", 1);
    Apart("cnf", "lbl", 0);
    Apart("con", "lbl", 0);
    Apart("cin", "cnf", 1);
    Apart("cin", "con", 1);
    Apart("cin", "lbl", 0);
  }

  lemma LocationPolicyNamesApart()
    ensures "los" != "lbl" && "lcp" != "los" && "lcp" != "lbl"
  {
    Apart("los", "lbl", 1);
    Apart("lcp", "los", 1);
    Apart("lcp", "lbl", 1);
  }

  lemma AENamesApart()
    ensures "api" != "apn"
  {
    Apart("api", "apn", 2);
  }

  lemma AreaNwkInfoNamesApart()
    ensures "mgd" != "ant" && "mgd" != "ldv" && "ant" != "ldv" && "ani" != "mgd"
    ensures "ani" != "ant" && "ani" != "ldv"
  {
    Apart("mgd", "ant", 0);
    Apart("mgd", "ldv", 0);
    Apart("ant", "ldv", 0);
    Apart("ani", "mgd", 0);
    Apart("ani", "ant", 2);
    Apart("ani", "ldv", 0);
  }

  lemma MgmtCmdResultNamesApart()
    ensures "exr" != "exs"
  {
    Apart("exr", "exs", 2);
  }

  lemma ContainerNamesApart()
    ensures "cnt" != "lbl"
  {
    Apart("cnt", "lbl", 0);
  }

  // ---------- looking names up ----------

  lemma LookupMore(a: Attribute, rest: seq<Attribute>, name: string)
    ensures Lookup([a] + rest, name) == if a.name == name && a.value.Some? then a.value else Lookup(rest, name)
  {
    assert ([a] + rest)[1..] == rest;
  }

  /** The order in which the parts of a request are looked through. */
  lemma ValueOfParts(r: Resource, operation: nat, to: string, ri: string, name: string)
    ensures var h := Lookup([CONTENT_TYPE] + HeaderAttributes(TypeCode(r), operation, to, ri), name);
      var f := Lookup(FrontAttributes(r), name);
      var p := if HasPc(r, operation) then Lookup(PcAttributes(r), name) else None;
      ValueOf(r, operation, to, ri, name) == if h.Some? then h else if f.Some? then f else p
  {
    var h := [CONTENT_TYPE] + HeaderAttributes(TypeCode(r), operation, to, ri);
    LookupAppend(LeadingAttributes(r, operation, to, ri), if HasPc(r, operation) then PcAttributes(r) else [], name);
    LookupAppend(h, FrontAttributes(r), name);
  }

  lemma PcNameLengths(r: Resource)
    ensures forall a :: a in PcAttributes(r) ==> |a.name| == 3 || a.name == "ni" || a.name == "rr" || a.name == "nl"
  {
  }

  lemma NoPcName(r: Resource, name: string)
    requires |name| != 3 && name != "ni" && name != "rr" && name != "nl"
    ensures Lookup(PcAttributes(r), name) == None
  {
    PcNameLengths(r);
    NoSuchName(PcAttributes(r), name);
  }

  lemma NoFrontName(r: Resource, name: string)
    requires name != "fr" && name != "nm" && name != "dKey" && name != "uKey" && name != "passCode"
    ensures Lookup(FrontAttributes(r), name) == None
  {
    NoSuchName(FrontAttributes(r), name);
  }

  lemma NoHeaderName(resourceType: nat, operation: nat, to: string, ri: string, name: string)
    requires name != "cty" && name != "op" && name != "to" && name != "ty" && name != "ri"
    ensures Lookup([CONTENT_TYPE] + HeaderAttributes(resourceType, operation, to, ri), name) == None
  {
    NoSuchName([CONTENT_TYPE] + HeaderAttributes(resourceType, operation, to, ri), name);
  }

  /** A name that no other attribute has gets its own value. */
  lemma LookupAt(attrs: seq<Attribute>, k: nat)
    requires k < |attrs| && forall i :: 0 <= i < |attrs| && i != k ==> attrs[i].name != attrs[k].name
    ensures Lookup(attrs, attrs[k].name) == attrs[k].value
    decreases |attrs|
  {
    assert attrs == [attrs[0]] + attrs[1..];
    LookupMore(attrs[0], attrs[1..], attrs[k].name);
    if k > 0 {
      LookupAt(attrs[1..], k - 1);
    } else if attrs[0].value.None? {
      NoSuchName(attrs[1..], attrs[0].name);
    }
  }

  lemma HeaderOfCreate(op: Attribute, to: Attribute, ty: Attribute, ri: Attribute)
    requires op.name == "op" && to.name == "to" && ty.name == "ty" && ri.name == "ri"
    ensures var h := [CONTENT_TYPE] + [op, to, ty, ri];
      Lookup(h, "op") == op.value && Lookup(h, "to") == to.value && Lookup(h, "ty") == ty.value && Lookup(h, "ri") == ri.value
  {
    var h := [CONTENT_TYPE] + [op, to, ty, ri];
    HeaderNamesApart();
    LookupAt(h, 1);
    LookupAt(h, 2);
    LookupAt(h, 3);
    LookupAt(h, 4);
  }

  lemma HeaderOfOthers(op: Attribute, to: Attribute, ri: Attribute)
    requires op.name == "op" && to.name == "to" && ri.name == "ri"
    ensures var h := [CONTENT_TYPE] + [op, to, ri];
      Lookup(h, "op") == op.value && Lookup(h, "to") == to.value && Lookup(h, "ty") == None && Lookup(h, "ri") == ri.value
  {
    var h := [CONTENT_TYPE] + [op, to, ri];
    HeaderNamesApart();
    LookupAt(h, 1);
    LookupAt(h, 2);
    LookupAt(h, 3);
    NoSuchName(h, "ty");
  }

  /** The header of a request, name by name. */
  lemma HeaderLookup(resourceType: nat, operation: nat, to: string, ri: string)
    ensures var h := [CONTENT_TYPE] + HeaderAttributes(resourceType, operation, to, ri);
      Lookup(h, "op") == Some(Snprintf(2, Decimal(operation))) && Lookup(h, "to") == Some(to) && Lookup(h, "ri") == Some(ri) &&
      Lookup(h, "ty") == if operation == CREATE then Some(Snprintf(6, Decimal(resourceType))) else None
  {
    var op, ty := Attribute("op", Some(Snprintf(2, Decimal(operation)))), Attribute("ty", Some(Snprintf(6, Decimal(resourceType))));
    if operation == CREATE {
      HeaderOfCreate(op, Attribute("to", Some(to)), ty, Attribute("ri", Some(ri)));
    } else {
      HeaderOfOthers(op, Attribute("to", Some(to)), Attribute("ri", Some(ri)));
    }
  }

  /** Different names all the way. */
  predicate Different(attrs: seq<Attribute>) {
    forall i, j :: 0 <= i < j < |attrs| ==> attrs[i].name != attrs[j].name
  }

  lemma FrontDifferent(r: Resource)
    ensures Different(FrontAttributes(r))
  {
    FrontNamesApart();
  }

  /** The attributes in front of the `pc` block, name by name. */
  lemma FrontLookup(r: Resource)
    ensures Lookup(FrontAttributes(r), "fr") == r.ni
    ensures Lookup(FrontAttributes(r), "dKey") == if r.CSEBase? then None else r.dKey
    ensures Lookup(FrontAttributes(r), "uKey") == if r.MgmtCmd? then r.uKey else None
  {
    var f := FrontAttributes(r);
    FrontDifferent(r);
    FrontNamesApart();
    assert f[0] == Attribute("fr", r.ni);
    LookupAt(f, 0);
    if r.CSEBase? {
      NoSuchName(f, "dKey");
    } else {
      var k := if r.ContentInstance? || r.LocationPolicy? || r.AE? || r.MgmtCmdResult? then 1 else 2;
      assert f[k] == Attribute("dKey", r.dKey);
      LookupAt(f, k);
    }
    if r.MgmtCmd? {
      assert f[3] == Attribute("uKey", r.uKey);
      LookupAt(f, 3);
    } else {
      NoSuchName(f, "uKey");
    }
  }

  lemma NmLookup(r: Resource)
    ensures r.Node? ==> Lookup(FrontAttributes(r), "nm") == r.ni
    ensures r.RemoteCSE? || r.Container? || r.MgmtCmd? || r.LocationPolicy? || r.AreaNwkInfo? ==>
      Lookup(FrontAttributes(r), "nm") == r.nm
    ensures r.CSEBase? || r.ContentInstance? || r.AE? || r.MgmtCmdResult? ==> Lookup(FrontAttributes(r), "nm") == None
  {
    var f := FrontAttributes(r);
    FrontDifferent(r);
    FrontNamesApart();
    if r.CSEBase? || r.ContentInstance? || r.AE? || r.MgmtCmdResult? {
      NoSuchName(f, "nm");
    } else {
      var k := if r.RemoteCSE? then 3 else if r.LocationPolicy? then 2 else 1;
      assert f[k].name == "nm";
      LookupAt(f, k);
    }
  }

  lemma NodeDifferent(r: Resource)
    requires r.Node?
    ensures Different(PcAttributes(r)) && forall a :: a in PcAttributes(r) ==> a.name != ResourceStr(r)
  {
    NodeNamesApart();
  }

  lemma RemoteCSEDifferent(r: Resource)
    requires r.RemoteCSE?
    ensures Different(PcAttributes(r)) && forall a :: a in PcAttributes(r) ==> a.name != ResourceStr(r)
  {
    RemoteCSENamesApart();
  }

  lemma ContainerDifferent(r: Resource)
    requires r.Container?
    ensures Different(PcAttributes(r)) && forall a :: a in PcAttributes(r) ==> a.name != ResourceStr(r)
  {
    ContainerNamesApart();
  }

  lemma MgmtCmdDifferent(r: Resource)
    requires r.MgmtCmd?
    ensures Different(PcAttributes(r)) && forall a :: a in PcAttributes(r) ==> a.name != ResourceStr(r)
  {
    MgmtCmdNamesApart();
  }

  lemma ContentInstanceDifferent(r: Resource)
    requires r.ContentInstance?
    ensures Different(PcAttributes(r)) && forall a :: a in PcAttributes(r) ==> a.name != ResourceStr(r)
  {
    ContentInstanceNamesApart();
  }

  lemma LocationPolicyDifferent(r: Resource)
    requires r.LocationPolicy?
    ensures Different(PcAttributes(r)) && forall a :: a in PcAttributes(r) ==> a.name != ResourceStr(r)
  {
    LocationPolicyNamesApart();
  }

  lemma AEDifferent(r: Resource)
    requires r.AE?
    ensures Different(PcAttributes(r)) && forall a :: a in PcAttributes(r) ==> a.name != ResourceStr(r)
  {
    AENamesApart();
  }

  lemma AreaNwkInfoDifferent(r: Resource)
    requires r.AreaNwkInfo?
    ensures Different(PcAttributes(r)) && forall a :: a in PcAttributes(r) ==> a.name != ResourceStr(r)
  {
    AreaNwkInfoNamesApart();
  }

  lemma MgmtCmdResultDifferent(r: Resource)
    requires r.MgmtCmdResult?
    ensures Different(PcAttributes(r)) && forall a :: a in PcAttributes(r) ==> a.name != ResourceStr(r)
  {
    MgmtCmdResultNamesApart();
  }

  lemma PcDifferent(r: Resource)
    ensures Different(PcAttributes(r)) && forall a :: a in PcAttributes(r) ==> a.name != ResourceStr(r)
  {
    match r
    case CSEBase(_) =>
    case Node(_, _, _, _) => NodeDifferent(r);
    case RemoteCSE(_, _, _, _, _, _, _, _) => RemoteCSEDifferent(r);
    case Container(_, _, _, _) => ContainerDifferent(r);
    case MgmtCmd(_, _, _, _, _, _, _, _) => MgmtCmdDifferent(r);
    case ContentInstance(_, _, _, _, _) => ContentInstanceDifferent(r);
    case LocationPolicy(_, _, _, _, _) => LocationPolicyDifferent(r);
    case AE(_, _, _, _) => AEDifferent(r);
    case AreaNwkInfo(_, _, _, _, _, _) => AreaNwkInfoDifferent(r);
    case MgmtCmdResult(_, _, _, _) => MgmtCmdResultDifferent(r);
  }

  // ---------- what the searches find ----------

  /** The digits of a number, and their value read back. */
  function Number(s: string): nat {
    if s == "" then 0 else 10 * Number(s[..|s| - 1]) + DigitOf(s[|s| - 1])
  }

  function DigitOf(c: char): nat {
    if '0' <= c <= '9' then c as int - '0' as int else 0
  }

  lemma {:induction false} DecimalReadsBack(n: nat)
    ensures Number(Decimal(n)) == n && (n < 10 ==> |Decimal(n)| == 1) && (n < 100 ==> |Decimal(n)| <= 2)
  {
    DigitsReadBack(n % 10);
    if n < 10 {
      assert Decimal(n)[..0] == "";
    } else {
      DecimalReadsBack(n / 10);
      assert Decimal(n)[..|Decimal(n)| - 1] == Decimal(n / 10);
    }
  }

  lemma DigitsReadBack(n: nat)
    requires n < 10
    ensures DigitOf("0123456789"[n]) == n
  {
  }

  /** The header: target, request id and operation are always found, the resource type on CREATE only. */
  lemma HeaderFields(r: Resource, operation: nat, to: string, ri: string)
    requires Exchangeable(r, operation, to, ri)
    ensures var payload := Payload(r, operation, to, ri);
      Between(payload, "to") == Some(to) && Between(payload, "ri") == Some(ri) &&
      Between(payload, "op").Some? && (operation < 10 ==> Number(Between(payload, "op").value) == operation)
    ensures var ty := Between(Payload(r, operation, to, ri), "ty");
      (ty.Some? <==> operation == CREATE) && (ty.Some? ==> Number(ty.value) == TypeCode(r))
  {
    HeaderLookup(TypeCode(r), operation, to, ri);
    DecimalReadsBack(operation);
    DecimalReadsBack(TypeCode(r));
    NoTypeElsewhere(r);
    HeaderSearch(r, operation, to, ri, "op");
    HeaderSearch(r, operation, to, ri, "to");
    HeaderSearch(r, operation, to, ri, "ri");
    HeaderSearch(r, operation, to, ri, "ty");
  }

  /** The number that a CREATE request gives for each kind of resource. */
  lemma TypeNumbers(r: Resource, to: string, ri: string)
    requires Exchangeable(r, CREATE, to, ri)
    ensures var ty := Between(Payload(r, CREATE, to, ri), "ty");
      ty.Some? && Number(ty.value) ==
        if r.AE? then 2 else if r.Container? then 3 else if r.ContentInstance? then 4 else if r.CSEBase? then 5
        else if r.MgmtCmdResult? then 8 else if r.LocationPolicy? then 10 else if r.MgmtCmd? then 12
        else if r.AreaNwkInfo? then 13 else if r.Node? then 14 else 16
  {
    HeaderFields(r, CREATE, to, ri);
  }

  lemma NoTypeElsewhere(r: Resource)
    ensures Lookup(FrontAttributes(r), "ty") == None && Lookup(PcAttributes(r), "ty") == None
  {
    HeaderNamesApart();
    TypeApartFromPc();
    NoFrontName(r, "ty");
    NoPcName(r, "ty");
  }

  lemma HeaderSearch(r: Resource, operation: nat, to: string, ri: string, name: string)
    requires Exchangeable(r, operation, to, ri) && (name == "op" || name == "to" || name == "ty" || name == "ri")
    ensures ValueOf(r, operation, to, ri, name) == Between(Payload(r, operation, to, ri), name)
    ensures var h := Lookup([CONTENT_TYPE] + HeaderAttributes(TypeCode(r), operation, to, ri), name);
      h.Some? || (Lookup(FrontAttributes(r), name).None? && Lookup(PcAttributes(r), name).None?) ==>
      Between(Payload(r, operation, to, ri), name) == h
  {
    PcTagApart();
    ResourceApart(r, name);
    RequestRoundTrip(r, operation, to, ri, name);
    ValueOfParts(r, operation, to, ri, name);
  }

  lemma ResourceApart(r: Resource, name: string)
    requires name == "op" || name == "to" || name == "ty" || name == "ri" || name == "fr" || name == "nm" ||
      name == "dKey" || name == "uKey"
    ensures name != ResourceStr(r) && TagName(name) && |name| <= 6
  {
    AEApart();
  }

  /** The attributes in front of the `pc` block: a plain search finds the originator, the name, the
      device key and the user key of the resource. */
  lemma FrontFields(r: Resource, operation: nat, to: string, ri: string)
    requires Exchangeable(r, operation, to, ri)
    ensures Between(Payload(r, operation, to, ri), "fr") == r.ni
    ensures Between(Payload(r, operation, to, ri), "dKey") == if r.CSEBase? then None else r.dKey
    ensures Between(Payload(r, operation, to, ri), "uKey") == if r.MgmtCmd? then r.uKey else None
    ensures r.Node? ==> Between(Payload(r, operation, to, ri), "nm") == r.ni
    ensures r.RemoteCSE? || r.Container? || r.MgmtCmd? || r.LocationPolicy? || r.AreaNwkInfo? ==>
      Between(Payload(r, operation, to, ri), "nm") == r.nm
    ensures r.CSEBase? || r.ContentInstance? || r.AE? || r.MgmtCmdResult? ==>
      Between(Payload(r, operation, to, ri), "nm") == None
  {
    FrontLookup(r);
    NmLookup(r);
    FrontSearch(r, operation, to, ri, "fr");
    FrontSearch(r, operation, to, ri, "dKey");
    FrontSearch(r, operation, to, ri, "uKey");
    FrontSearch(r, operation, to, ri, "nm");
  }

  /** A name that belongs neither to the header nor to any kind of resource is not found. */
  lemma NothingElse(r: Resource, operation: nat, to: string, ri: string, name: string)
    requires Exchangeable(r, operation, to, ri) && IsOther(name, ResourceStr(r)) && |name| != 3
    requires name != "op" && name != "to" && name != "ty" && name != "ri"
    requires name != "fr" && name != "nm" && name != "dKey" && name != "uKey"
    requires name != "ni" && name != "rr" && name != "nl"
    ensures Between(Payload(r, operation, to, ri), name) == None
  {
    NoHeaderName(TypeCode(r), operation, to, ri, name);
    NoFrontName(r, name);
    NoPcName(r, name);
    RequestRoundTrip(r, operation, to, ri, name);
    ValueOfParts(r, operation, to, ri, name);
  }

  lemma FrontSearch(r: Resource, operation: nat, to: string, ri: string, name: string)
    requires Exchangeable(r, operation, to, ri) && (name == "fr" || name == "nm" || name == "dKey" || name == "uKey")
    ensures Between(Payload(r, operation, to, ri), name) == Lookup(FrontAttributes(r), name)
  {
    PcTagApart();
    HeaderNamesApart();
    FrontApartFromPc();
    ResourceApart(r, name);
    NoHeaderName(TypeCode(r), operation, to, ri, name);
    NoPcName(r, name);
    RequestRoundTrip(r, operation, to, ri, name);
    ValueOfParts(r, operation, to, ri, name);
  }

  /** A search inside `pc` finds the value. */
  ghost predicate FindsInPc(payload: string, name: string, value: Option<string>) {
    Find(payload, PC_TAG).Some? && Between(Region(payload, true), name) == value
  }

  /** The `pc` block is there unless the resource is a CSEBase, or deleted without being an execInstance;
      where it is, it opens with the resource's own tag. */
  lemma PcPresence(r: Resource, operation: nat, to: string, ri: string)
    requires Exchangeable(r, operation, to, ri)
    ensures Find(Payload(r, operation, to, ri), PC_TAG).Some? <==> r.MgmtCmdResult? || (!r.CSEBase? && operation != DELETE)
    ensures Find(Payload(r, operation, to, ri), PC_TAG).Some? ==>
      "<pc><" + ResourceStr(r) + ">" <= Region(Payload(r, operation, to, ri), true)
  {
    RequestIsSearchable(r, operation, to, ri);
    RequestRendered(r, operation, to, ri);
    var leading := LeadingAttributes(r, operation, to, ri);
    if HasPc(r, operation) {
      RegionOfPayload(XmlRoot.ROOT, leading, PcOf(r, operation).value);
      PcOpening(PcOf(r, operation).value);
    } else {
      PayloadIsPlain(XmlRoot.ROOT, leading, None);
      NoTagWithoutValue(leading, "pc");
      NoPcTag(PayloadItems(XmlRoot.ROOT, leading, None));
    }
  }

  lemma NoPcTag(items: seq<Item>)
    requires AllPlain(items) && NoTag(items, "pc")
    ensures Find(RenderAll(items), PC_TAG).None?
  {
    forall i | 0 <= i < |items| ensures !StartsWith(items[i], PC_TAG) {
      assert Plain(items[i]);
      TagStarts(items[i], "pc", false);
    }
    FindNoItem(items, PC_TAG);
  }

  lemma PcOpening(p: PcPart)
    ensures "<pc><" + p.resource + ">" <= RenderAll(PcRegion(p))
  {
    var opening := [Open("pc", ""), Open(p.resource, "")];
    var rest := ElementItems(p.attributes) + [Close(p.resource), Close("pc")] + [Close("m2m:req")];
    assert PcRegion(p) == opening + rest;
    RenderAppend(opening, rest);
    OpeningTags("pc", p.resource);
    TagPair(p.resource);
  }

  lemma TagPair(name: string)
    ensures Tag("pc", false) + Tag(name, false) == "<pc><" + name + ">"
  {
  }

  /** The tag that the `pc` block of each kind of resource opens with. */
  lemma PcTags(r: Resource, operation: nat, to: string, ri: string, region: string)
    requires Exchangeable(r, operation, to, ri) && Find(Payload(r, operation, to, ri), PC_TAG).Some?
    requires region == Region(Payload(r, operation, to, ri), true)
    ensures r.Node? ==> "<pc><" + "nod" + ">" <= region
    ensures r.RemoteCSE? ==> "<pc><" + "csr" + ">" <= region
    ensures r.Container? ==> "<pc><" + "cnt" + ">" <= region
    ensures r.MgmtCmd? ==> "<pc><" + "mgc" + ">" <= region
    ensures r.ContentInstance? ==> "<pc><" + "cin" + ">" <= region
    ensures r.LocationPolicy? ==> "<pc><" + "lcp" + ">" <= region
    ensures r.AE? ==> "<pc><" + "ae" + ">" <= region
    ensures r.AreaNwkInfo? ==> "<pc><" + "ani" + ">" <= region
    ensures r.MgmtCmdResult? ==> "<pc><" + "exin" + ">" <= region
  {
    PcPresence(r, operation, to, ri);
  }

  /** Inside `pc`, each printed attribute's name finds that attribute's value. */
  lemma PcField(r: Resource, operation: nat, to: string, ri: string, k: nat)
    requires Exchangeable(r, operation, to, ri) && HasPc(r, operation) && k < |PcAttributes(r)|
    ensures FindsInPc(Payload(r, operation, to, ri), PcAttributes(r)[k].name, PcAttributes(r)[k].value)
  {
    PcDifferent(r);
    PcNameFits(r, PcAttributes(r)[k]);
    LookupAt(PcAttributes(r), k);
    PcRoundTrip(r, operation, to, ri, PcAttributes(r)[k].name);
  }

  lemma PcNameFits(r: Resource, a: Attribute)
    requires a in PcAttributes(r)
    ensures IsOther(a.name, ResourceStr(r))
  {
    PcDifferent(r);
    PcNameLengths(r);
    PcNames(r);
    PcTagApart();
  }

  /** A name that a search can look for, other than the wrappers of the `pc` block. */
  predicate IsOther(name: string, resource: string) {
    TagName(name) && |name| <= 6 && name != "pc" && name != resource
  }

  /** The names inside the `pc` block of each kind of resource. */
  predicate PcHas(r: Resource, name: string) {
    match r
    case CSEBase(_) => false
    case Node(_, _, _, _) => name == "ni" || name == "hcl" || name == "mga"
    case RemoteCSE(_, _, _, _, _, _, _, _) => name == "cst" || name == "csi" || name == "poa" || name == "rr" || name == "nl"
    case Container(_, _, _, _) => name == "lbl"
    case MgmtCmd(_, _, _, _, _, _, _, _) => name == "cmt" || name == "exe" || name == "ext" || name == "lbl"
    case ContentInstance(_, _, _, _, _) => name == "cnf" || name == "con" || name == "lbl"
    case LocationPolicy(_, _, _, _, _) => name == "los" || name == "lbl"
    case AE(_, _, _, _) => name == "api" || name == "apn"
    case AreaNwkInfo(_, _, _, _, _, _) => name == "mgd" || name == "ant" || name == "ldv"
    case MgmtCmdResult(_, _, _, _) => name == "exr" || name == "exs"
  }

  lemma NotInPc(r: Resource, name: string, k: nat)
    requires k < |PcAttributes(r)| && !PcHas(r, name)
    ensures PcAttributes(r)[k].name != name
  {
    assert PcHas(r, PcAttributes(r)[k].name);
  }

  /** No other name is found there. */
  lemma PcNothingElse(r: Resource, operation: nat, to: string, ri: string, name: string)
    requires Exchangeable(r, operation, to, ri) && HasPc(r, operation) && IsOther(name, ResourceStr(r)) && !PcHas(r, name)
    ensures FindsInPc(Payload(r, operation, to, ri), name, None)
  {
    forall k | 0 <= k < |PcAttributes(r)| ensures PcAttributes(r)[k].name != name { NotInPc(r, name, k); }
    NoSuchName(PcAttributes(r), name);
    PcRoundTrip(r, operation, to, ri, name);
  }

  // For each kind of resource, what a search inside `pc` finds by every name.

  lemma NodeFields(r: Resource, operation: nat, to: string, ri: string, payload: string)
    requires Exchangeable(r, operation, to, ri) && r.Node? && operation != DELETE
    requires payload == Payload(r, operation, to, ri)
    ensures FindsInPc(payload, "ni", r.ni)
    ensures FindsInPc(payload, "hcl", r.hcl)
    ensures FindsInPc(payload, "mga", r.mga)
  {
    PcField(r, operation, to, ri, 0);
    PcField(r, operation, to, ri, 1);
    PcField(r, operation, to, ri, 2);
  }

  lemma RemoteCSEFields(r: Resource, operation: nat, to: string, ri: string, payload: string)
    requires Exchangeable(r, operation, to, ri) && r.RemoteCSE? && operation != DELETE
    requires payload == Payload(r, operation, to, ri)
    ensures FindsInPc(payload, "cst", r.cst)
    ensures FindsInPc(payload, "csi", r.ni)
    ensures FindsInPc(payload, "poa", r.poa)
    ensures FindsInPc(payload, "rr", r.rr)
    ensures FindsInPc(payload, "nl", r.nl)
  {
    PcField(r, operation, to, ri, 0);
    PcField(r, operation, to, ri, 1);
    PcField(r, operation, to, ri, 2);
    PcField(r, operation, to, ri, 3);
    PcField(r, operation, to, ri, 4);
  }

  lemma ContainerFields(r: Resource, operation: nat, to: string, ri: string, payload: string)
    requires Exchangeable(r, operation, to, ri) && r.Container? && operation != DELETE
    requires payload == Payload(r, operation, to, ri)
    ensures FindsInPc(payload, "lbl", r.lbl)
  {
    PcField(r, operation, to, ri, 0);
  }

  lemma MgmtCmdFields(r: Resource, operation: nat, to: string, ri: string, payload: string)
    requires Exchangeable(r, operation, to, ri) && r.MgmtCmd? && operation != DELETE
    requires payload == Payload(r, operation, to, ri)
    ensures FindsInPc(payload, "cmt", r.cmt)
    ensures FindsInPc(payload, "exe", r.exe)
    ensures FindsInPc(payload, "ext", r.ext)
    ensures FindsInPc(payload, "lbl", r.lbl)
  {
    PcField(r, operation, to, ri, 0);
    PcField(r, operation, to, ri, 1);
    PcField(r, operation, to, ri, 2);
    PcField(r, operation, to, ri, 3);
  }

  lemma ContentInstanceFields(r: Resource, operation: nat, to: string, ri: string, payload: string)
    requires Exchangeable(r, operation, to, ri) && r.ContentInstance? && operation != DELETE
    requires payload == Payload(r, operation, to, ri)
    ensures FindsInPc(payload, "cnf", r.cnf)
    ensures FindsInPc(payload, "con", r.con)
    ensures FindsInPc(payload, "lbl", r.lbl)
  {
    PcField(r, operation, to, ri, 0);
    PcField(r, operation, to, ri, 1);
    PcField(r, operation, to, ri, 2);
  }

  lemma LocationPolicyFields(r: Resource, operation: nat, to: string, ri: string, payload: string)
    requires Exchangeable(r, operation, to, ri) && r.LocationPolicy? && operation != DELETE
    requires payload == Payload(r, operation, to, ri)
    ensures FindsInPc(payload, "los", r.los)
    ensures FindsInPc(payload, "lbl", r.ni)
  {
    PcField(r, operation, to, ri, 0);
    PcField(r, operation, to, ri, 1);
  }

  lemma AEFields(r: Resource, operation: nat, to: string, ri: string, payload: string)
    requires Exchangeable(r, operation, to, ri) && r.AE? && operation != DELETE
    requires payload == Payload(r, operation, to, ri)
    ensures FindsInPc(payload, "api", r.api)
    ensures FindsInPc(payload, "apn", r.apn)
  {
    PcField(r, operation, to, ri, 0);
    PcField(r, operation, to, ri, 1);
  }

  lemma AreaNwkInfoFields(r: Resource, operation: nat, to: string, ri: string, payload: string)
    requires Exchangeable(r, operation, to, ri) && r.AreaNwkInfo? && operation != DELETE
    requires payload == Payload(r, operation, to, ri)
    ensures FindsInPc(payload, "mgd", r.mgd)
    ensures FindsInPc(payload, "ant", r.ant)
    ensures FindsInPc(payload, "ldv", r.ldv)
  {
    PcField(r, operation, to, ri, 0);
    PcField(r, operation, to, ri, 1);
    PcField(r, operation, to, ri, 2);
  }

  lemma MgmtCmdResultFields(r: Resource, operation: nat, to: string, ri: string, payload: string)
    requires Exchangeable(r, operation, to, ri) && r.MgmtCmdResult?
    requires payload == Payload(r, operation, to, ri)
    ensures FindsInPc(payload, "exr", r.exr)
    ensures FindsInPc(payload, "exs", r.exs)
  {
    PcField(r, operation, to, ri, 0);
    PcField(r, operation, to, ri, 1);
  }
}
