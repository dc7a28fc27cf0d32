/** The project-level nullable setting read from a project file. */
module ProjectSettings {
  import opened Wrappers
  import opened Strings

  /** The element name looked for, both as a plain substring and as an XML tag name. */
  const NULLABLE_ELEMENT: string := "Nullable"

  /** The setting of a project whose file text is `body`; `nullableNodes(body)` stands for the
      inner texts of all `Nullable` elements of the parsed document, in document order.
      Some(true): nullable enabled, Some(false): disabled, None: not specified. */
  function ResolveSetting(body: string, nullableNodes: string -> seq<string>): (r: Option<bool>)
    ensures r == Some(true) <==>
      Occurs(NULLABLE_ELEMENT, body) && |nullableNodes(body)| == 1 && EqualsIgnoreCase(nullableNodes(body)[0], "enable")
    ensures r == Some(false) <==>
      Occurs(NULLABLE_ELEMENT, body) && (|nullableNodes(body)| != 1 || EqualsIgnoreCase(nullableNodes(body)[0], "disable"))
    ensures r == None <==>
      !Occurs(NULLABLE_ELEMENT, body) ||
      (|nullableNodes(body)| == 1 && !EqualsIgnoreCase(nullableNodes(body)[0], "enable")
                                  && !EqualsIgnoreCase(nullableNodes(body)[0], "disable"))
  {
    if Occurs(NULLABLE_ELEMENT, body) then
      var nodes := nullableNodes(body);
      if |nodes| == 1 then
        if EqualsIgnoreCase(nodes[0], "enable") then Some(true)
        else if EqualsIgnoreCase(nodes[0], "disable") then Some(false)
        else None
      else
        // none or many Nullable elements: treated as disabled, so the project's files stay visible
        Some(false)
    else
      None
  }

  lemma LowerKeywords()
    ensures Lower("enable") == "enable" && Lower("disable") == "disable"
  {
    LowerWithoutCapitals("enable");
    LowerWithoutCapitals("disable");
  }

  /** Any letter case of `enable` in the single element enables nullable checking. */
  lemma SingleElementAnyCase(body: string, nullableNodes: string -> seq<string>, text: string)
    requires Occurs(NULLABLE_ELEMENT, body) && nullableNodes(body) == [text]
    ensures Lower(text) == "enable" ==> ResolveSetting(body, nullableNodes) == Some(true)
    ensures Lower(text) == "disable" ==> ResolveSetting(body, nullableNodes) == Some(false)
    ensures Lower(text) != "enable" && Lower(text) != "disable" ==> ResolveSetting(body, nullableNodes) == None
  {
    EqualsIgnoreCaseIffLowerEqual(text, "enable");
    EqualsIgnoreCaseIffLowerEqual(text, "disable");
    LowerKeywords();
  }
}
