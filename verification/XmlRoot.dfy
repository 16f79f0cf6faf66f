/** The opening tag of a request, without its brackets. */
module XmlRoot {
  const ROOT_NAME := "m2m:req xmlns:m2m=" + "\"http://www.onem2m" + ".org/xml/protocols\""
  const ROOT_XSI := " xmlns:xsi=" + "\"http://www.w3.org"
  const ROOT_INSTANCE := "/2001/XMLSchema-" + "instance\""
  const ROOT_LOCATION := " xsi:schemaLocation=" + "\"http://www.onem2m" + ".org/xml/protocols"
  const ROOT_SCHEMA := " CDT-request" + "Primitive-v1_0_0" + ".xsd\""
  const ROOT := ROOT_NAME + ROOT_XSI + ROOT_INSTANCE + ROOT_LOCATION + ROOT_SCHEMA

  /** Neither markup nor a terminator. */
  predicate Clean(s: string) {
    '<' !in s && '>' !in s && '\0' !in s
  }

  lemma NameIsClean()
    ensures Clean(ROOT_NAME) && ROOT_NAME[0] == 'm' && |ROOT_NAME| > 6
  {
    assert Clean("m2m:req xmlns:m2m=") && Clean("\"http://www.onem2m") && Clean(".org/xml/protocols\"");
  }

  lemma XsiIsClean()
    ensures Clean(ROOT_XSI)
  {
    assert Clean(" xmlns:xsi=") && Clean("\"http://www.w3.org");
  }

  lemma InstanceIsClean()
    ensures Clean(ROOT_INSTANCE)
  {
    assert Clean("/2001/XMLSchema-") && Clean("instance\"");
  }

  lemma LocationIsClean()
    ensures Clean(ROOT_LOCATION)
  {
    assert Clean(" xsi:schemaLocation=") && Clean("\"http://www.onem2m") && Clean(".org/xml/protocols");
  }

  lemma SchemaIsClean()
    ensures Clean(ROOT_SCHEMA)
  {
    assert Clean(" CDT-request") && Clean("Primitive-v1_0_0") && Clean(".xsd\"");
  }

  lemma CleanJoin(a: string, b: string)
    requires Clean(a) && Clean(b)
    ensures Clean(a + b)
  {
  }

  lemma RootIsClean()
    ensures Clean(ROOT) && |ROOT| > 6 && ROOT[0] == 'm'
  {
    NameIsClean();
    XsiIsClean();
    InstanceIsClean();
    LocationIsClean();
    SchemaIsClean();
    CleanJoin(ROOT_NAME, ROOT_XSI);
    CleanJoin(ROOT_NAME + ROOT_XSI, ROOT_INSTANCE);
    CleanJoin(ROOT_NAME + ROOT_XSI + ROOT_INSTANCE, ROOT_LOCATION);
    CleanJoin(ROOT_NAME + ROOT_XSI + ROOT_INSTANCE + ROOT_LOCATION, ROOT_SCHEMA);
  }
}
