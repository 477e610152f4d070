// DotHtmlLabelJavaValidator: the validation rules for Graphviz HTML-like
// labels. Each check* rule looks at one tag or attribute of the parsed label
// and reports errors; here each rule is a function from the element (and the
// DotHtmlLabelHelper tables it consults, passed in as parameters) to the list
// of errors it reports, in order. The value checkers are functions from the
// attribute value to an error message, or None for a valid value.
//
// Case conversion (toUpperCase, equalsIgnoreCase) and Integer.parseInt are
// modelled on ASCII text.

module DotHtmlLabelValidation {
  import opened Wrappers
  import opened Lists
  import opened JavaInts

  // ---- the parsed label --------------------------------------------------

  /** A child of a tag; text is null for child tags. */
  datatype HtmlContent = HtmlContent(text: Option<string>)

  /** closeName is None when the tag has no close tag, as for a self-closing tag. */
  datatype HtmlTag = HtmlTag(name: string, closeName: Option<string>, selfClosing: bool, children: seq<HtmlContent>)

  datatype HtmlAttr = HtmlAttr(name: string, value: string)

  /** The feature of the element an error is reported on. */
  datatype Feature = TagCloseName | TagName | AttrName | AttrValue

  datatype Error = Error(message: string, feature: Feature)

  // ---- Java string operations on ASCII text -------------------------------

  function UpperChar(c: char): char
  {
    if 'a' <= c <= 'z' then (c as int - 32) as char else c
  }

  /** String.toUpperCase. */
  function Upper(s: string): (r: string)
    ensures |r| == |s| && forall i :: 0 <= i < |s| ==> r[i] == UpperChar(s[i])
  {
    seq(|s|, i requires 0 <= i < |s| => UpperChar(s[i]))
  }

  lemma UpperIdempotent(s: string)
    ensures Upper(Upper(s)) == Upper(s)
  {
  }

  /** String.trim: drops the characters up to U+0020 at both ends. */
  function Trim(s: string): (r: string)
    decreases |s|
  {
    if |s| > 0 && s[0] <= ' ' then Trim(s[1..])
    else if |s| > 0 && s[|s| - 1] <= ' ' then Trim(s[..|s| - 1])
    else s
  }

  /** text.trim().isEmpty() holds exactly when every character is at most U+0020. */
  lemma {:induction false} TrimEmptyIff(s: string)
    decreases |s|
    ensures Trim(s) == "" <==> forall i :: 0 <= i < |s| ==> s[i] <= ' '
  {
    if |s| > 0 && s[0] <= ' ' {
      TrimEmptyIff(s[1..]);
      assert forall i :: 1 <= i < |s| ==> s[i] == s[1..][i - 1];
    } else if |s| > 0 && s[|s| - 1] <= ' ' {
      TrimEmptyIff(s[..|s| - 1]);
      assert forall i :: 0 <= i < |s| - 1 ==> s[i] == s[..|s| - 1][i];
    }
  }

  /** String.join(delimiter, parts). */
  function Join(parts: seq<string>, delimiter: string): string
  {
    if |parts| == 0 then ""
    else if |parts| == 1 then parts[0]
    else parts[0] + delimiter + Join(parts[1..], delimiter)
  }

  // ---- Integer.parseInt and decimal rendering ----------------------------

  predicate IsDigit(c: char)
  {
    '0' <= c <= '9'
  }

  predicate AllDigits(s: string)
  {
    forall i :: 0 <= i < |s| ==> IsDigit(s[i])
  }

  /** The value of a string of decimal digits. */
  function DigitsValue(s: string): nat
    requires AllDigits(s)
  {
    if |s| == 0 then 0 else 10 * DigitsValue(s[..|s| - 1]) + (s[|s| - 1] as int - '0' as int)
  }

  /**
   * Integer.parseInt: an optional sign, then at least one decimal digit,
   * with a value that fits in an int; None where parseInt throws
   * NumberFormatException.
   */
  function ParseInt(s: string): (r: Option<int>)
    ensures r.Some? ==> IsInt32(r.value)
  {
    var signed := |s| > 0 && (s[0] == '-' || s[0] == '+');
    var digits := if signed then s[1..] else s;
    if |digits| == 0 || !AllDigits(digits) then None
    else
      var v: int := if signed && s[0] == '-' then -(DigitsValue(digits) as int) else DigitsValue(digits);
      if IsInt32(v) then Some(v) else None
  }

  function DigitChar(d: nat): char
    requires d < 10
  {
    ('0' as int + d) as char
  }

  /** The decimal digits of n, without sign or leading zeros. */
  function NatToString(n: nat): (r: string)
    ensures |r| > 0 && AllDigits(r)
  {
    if n < 10 then [DigitChar(n)] else NatToString(n / 10) + [DigitChar(n % 10)]
  }

  /** %d formatting of an int. */
  function IntToString(n: int): string
  {
    if n < 0 then "-" + NatToString(-n) else NatToString(n)
  }

  lemma {:induction false} NatToStringValue(n: nat)
    ensures DigitsValue(NatToString(n)) == n
  {
    if n >= 10 {
      NatToStringValue(n / 10);
      var s := NatToString(n);
      assert s[..|s| - 1] == NatToString(n / 10);
    }
  }

  /** parseInt reads back every int that %d writes. */
  lemma ParseIntRoundTrip(n: int)
    requires IsInt32(n)
    ensures ParseInt(IntToString(n)) == Some(n)
  {
    var d := if n < 0 then -n else n;
    NatToStringValue(d);
    var s := IntToString(n);
    if n < 0 {
      assert s[1..] == NatToString(d);
    } else {
      assert IsDigit(NatToString(d)[0]);
    }
  }

  // ---- the value checkers ------------------------------------------------

  /** The allowed values, each in single quotes, joined by ", ". */
  function Quoted(values: seq<string>): (r: seq<string>)
    ensures |r| == |values| && forall i :: 0 <= i < |values| ==> r[i] == "'" + values[i] + "'"
  {
    seq(|values|, i requires 0 <= i < |values| => "'" + values[i] + "'")
  }

  /** getEnumAttributeValueErrorMessage. */
  function EnumError(value: string, allowed: seq<string>): Option<string>
  {
    if Upper(value) in allowed then None
    else Some("Value has to be " + (if |allowed| > 1 then "one of " else "") + Join(Quoted(allowed), ", ") + ".")
  }

  /** getNumberAttributeValueErrorMessage. */
  function NumberError(value: string, minimum: int, maximum: int): Option<string>
  {
    var parsed := ParseInt(value);
    if parsed.Some? && minimum <= parsed.value <= maximum then None
    else Some("Value has to be between " + IntToString(minimum) + " and " + IntToString(maximum) + ".")
  }

  const SIDES_MESSAGE := "Value has to contain only the 'L', 'T', 'R', 'B' characters."

  /** getSidesAttributeValueErrorMessage. */
  function SidesError(value: string): Option<string>
  {
    if |value| > 0 && forall i :: 0 <= i < |value| ==> UpperChar(value[i]) in "LTRB" then None
    else Some(SIDES_MESSAGE)
  }

  /** The enum check ignores the case of the value. */
  lemma EnumIgnoresCase(value: string, allowed: seq<string>)
    ensures EnumError(value, allowed) == EnumError(Upper(value), allowed)
  {
    UpperIdempotent(value);
  }

  /**
   * A value that upper-cases to an allowed value passes; any other value is
   * rejected, with "one of " in the message only when several values are
   * allowed.
   */
  lemma EnumAcceptsAllowed(allowed: seq<string>, i: nat, value: string, other: string)
    requires i < |allowed| && Upper(value) == allowed[i]
    requires Upper(other) !in allowed
    ensures EnumError(value, allowed) == None
    ensures EnumError(other, allowed).Some?
    ensures |allowed| > 1 ==> "Value has to be one of " <= EnumError(other, allowed).value
    ensures |allowed| == 1 ==> EnumError(other, allowed).value == "Value has to be '" + allowed[0] + "'."
  {
  }

  /** Every int in range, written with %d, passes the number check; every int outside it fails. */
  lemma NumberAcceptsExactlyRange(n: int, minimum: int, maximum: int)
    requires IsInt32(n)
    ensures NumberError(IntToString(n), minimum, maximum).None? <==> minimum <= n <= maximum
  {
    ParseIntRoundTrip(n);
  }

  /** The sides check ignores the case of the value. */
  lemma SidesIgnoresCase(value: string)
    ensures SidesError(value) == SidesError(Upper(value))
  {
  }

  /** The loop of getSidesAttributeValueErrorMessage: the first character outside L, T, R, B (upper-cased) fails it. */
  method CheckSides(value: string) returns (message: Option<string>)
    ensures message == SidesError(value)
  {
    if |value| == 0 {
      return Some(SIDES_MESSAGE);
    }
    for i := 0 to |value|
      invariant forall j :: 0 <= j < i ==> UpperChar(value[j]) in "LTRB"
    {
      var sub := [UpperChar(value[i])];
      if !(sub[0] in "LTRB") {
        return Some(SIDES_MESSAGE);
      }
    }
    return None;
  }

  /** The attribute value rules: which check applies to an attribute of a tag (names upper-cased). */
  datatype ValueRule = EnumRule(allowed: seq<string>) | NumberRule(minimum: int, maximum: int) | SidesRule

  /** The table of getAttributeValueErrorMessage; None where the value is not checked. */
  function ValueRuleFor(tag: string, attr: string): Option<ValueRule>
  {
    if tag == "BR" then
      (if attr == "ALIGN" then Some(EnumRule(["CENTER", "LEFT", "RIGHT"])) else None)
    else if tag == "IMG" then
      (if attr == "SCALE" then Some(EnumRule(["FALSE", "TRUE", "WIDTH", "HEIGHT", "BOTH"])) else None)
    else if tag == "TABLE" then
      match attr
      case "ALIGN" => Some(EnumRule(["CENTER", "LEFT", "RIGHT"]))
      case "BORDER" => Some(NumberRule(0, 255))
      case "CELLBORDER" => Some(NumberRule(0, 127))
      case "CELLPADDING" => Some(NumberRule(0, 255))
      case "CELLSPACING" => Some(NumberRule(0, 127))
      case "COLUMNS" => Some(EnumRule(["*"]))
      case "ROWS" => Some(EnumRule(["*"]))
      case "FIXEDSIZE" => Some(EnumRule(["FALSE", "TRUE"]))
      case "HEIGHT" => Some(NumberRule(0, 65535))
      case "WIDTH" => Some(NumberRule(0, 65535))
      case "SIDES" => Some(SidesRule)
      case "VALIGN" => Some(EnumRule(["MIDDLE", "BOTTOM", "TOP"]))
      case _ => None
    else if tag == "TD" then
      match attr
      case "ALIGN" => Some(EnumRule(["CENTER", "LEFT", "RIGHT", "TEXT"]))
      case "BALIGN" => Some(EnumRule(["CENTER", "LEFT", "RIGHT"]))
      case "BORDER" => Some(NumberRule(0, 255))
      case "CELLPADDING" => Some(NumberRule(0, 255))
      case "CELLSPACING" => Some(NumberRule(0, 127))
      case "COLSPAN" => Some(NumberRule(1, 65535))
      case "ROWSPAN" => Some(NumberRule(1, 65535))
      case "FIXEDSIZE" => Some(EnumRule(["FALSE", "TRUE"]))
      case "HEIGHT" => Some(NumberRule(0, 65535))
      case "WIDTH" => Some(NumberRule(0, 65535))
      case "SIDES" => Some(SidesRule)
      case "VALIGN" => Some(EnumRule(["MIDDLE", "BOTTOM", "TOP"]))
      case _ => None
    else None
  }

  /** getAttributeValueErrorMessage: the message of the rule for the tag and attribute, if any. */
  function AttributeValueError(tagName: string, attrName: string, value: string): Option<string>
  {
    match ValueRuleFor(Upper(tagName), Upper(attrName))
    case None => None
    case Some(EnumRule(allowed)) => EnumError(value, allowed)
    case Some(NumberRule(minimum, maximum)) => NumberError(value, minimum, maximum)
    case Some(SidesRule) => SidesError(value)
  }

  /** Values of attributes outside the BR, IMG, TABLE and TD table are never rejected. */
  lemma UncheckedPairsPass(tagName: string, attrName: string, value: string)
    requires Upper(tagName) !in {"BR", "IMG", "TABLE", "TD"}
    ensures AttributeValueError(tagName, attrName, value) == None
  {
  }

  /** The TABLE BORDER row, read back: 255 passes and 256 fails, whatever the case of the names. */
  lemma TableBorderRange()
    ensures AttributeValueError("table", "Border", "255") == None
    ensures AttributeValueError("table", "Border", "256").Some?
  {
    assert ValueRuleFor(Upper("table"), Upper("Border")) == Some(NumberRule(0, 255)) by {
      assert Upper("table") == "TABLE" && Upper("Border") == "BORDER";
    }
    assert NumberError("255", 0, 255) == None by {
      NumberAcceptsExactlyRange(255, 0, 255);
      assert NatToString(25) == "25";
      assert IntToString(255) == "255";
    }
    assert NumberError("256", 0, 255).Some? by {
      NumberAcceptsExactlyRange(256, 0, 255);
      assert NatToString(25) == "25";
      assert IntToString(256) == "256";
    }
  }

  /** The TD COLSPAN row, read back: a cell spans at least one column. */
  lemma CellSpanRange()
    ensures AttributeValueError("td", "colspan", "0").Some?
    ensures AttributeValueError("td", "colspan", "1") == None
  {
    assert ValueRuleFor(Upper("td"), Upper("colspan")) == Some(NumberRule(1, 65535)) by {
      assert Upper("td") == "TD" && Upper("colspan") == "COLSPAN";
    }
    assert NumberError("0", 1, 65535).Some? by {
      NumberAcceptsExactlyRange(0, 1, 65535);
      assert IntToString(0) == "0";
    }
    assert NumberError("1", 1, 65535) == None by {
      NumberAcceptsExactlyRange(1, 1, 65535);
      assert IntToString(1) == "1";
    }
  }

  // ---- the check rules -----------------------------------------------------

  /** removeDoubleQuotes: one leading and one trailing double quote are dropped, when present. */
  function RemoveDoubleQuotes(value: string): string
  {
    var v := if |value| > 0 && value[0] == '"' then value[1..] else value;
    if |v| > 0 && v[|v| - 1] == '"' then v[..|v| - 1] else v
  }

  /** At most one quote goes from each end; a value without quotes at its ends is kept; a quoted value loses its quotes. */
  lemma RemoveDoubleQuotesStrips(value: string, s: string)
    ensures exists i, j :: 0 <= i <= 1 && |value| - 1 <= j <= |value| && i <= j &&
                           RemoveDoubleQuotes(value) == value[i..j]
    ensures (|value| == 0 || (value[0] != '"' && value[|value| - 1] != '"')) ==> RemoveDoubleQuotes(value) == value
    ensures RemoveDoubleQuotes("\"" + s + "\"") == s
  {
    var v := if |value| > 0 && value[0] == '"' then value[1..] else value;
    var i := if |value| > 0 && value[0] == '"' then 1 else 0;
    assert v == value[i..];
    if |v| > 0 && v[|v| - 1] == '"' {
      assert RemoveDoubleQuotes(value) == value[i..|value| - 1];
    } else {
      assert RemoveDoubleQuotes(value) == value[i..|value|];
    }
    var q := "\"" + s + "\"";
    assert q[1..] == s + "\"";
  }

  /**
   * checkTagIsClosed: an error when the close name differs from the name,
   * ignoring case. The close name is upper-cased without a null check, so
   * a tag without one throws.
   */
  function CheckTagIsClosed(tag: HtmlTag): Result<seq<Error>>
  {
    match tag.closeName
    case None => Failure(NullPointer)
    case Some(closeName) =>
      if Upper(tag.name) != Upper(closeName) then
        Success([Error("Tag '<" + tag.name + ">' is not closed (expected '</" + tag.name + ">' but got '</" + closeName + ">').",
                       TagCloseName)])
      else Success([])
  }

  /** checkSelfClosingTagIsAllowed: an error for a self-closing tag whose name may not self-close. */
  function CheckSelfClosingTagIsAllowed(tag: HtmlTag, nonSelfClosingTags: set<string>): seq<Error>
  {
    if tag.selfClosing && Upper(tag.name) in nonSelfClosingTags then
      [Error("Tag '<" + tag.name + "/>' cannot be self closing.", TagName)]
    else []
  }

  /**
   * A tag without a close name throws NullPointerException; otherwise it is
   * closed exactly when the names agree ignoring case, and closing with the
   * upper-cased name is accepted.
   */
  lemma TagClosedIgnoresCase(tag: HtmlTag)
    ensures CheckTagIsClosed(tag) == Failure(NullPointer) <==> tag.closeName == None
    ensures tag.closeName.Some? ==>
      (CheckTagIsClosed(tag) == Success([]) <==> Upper(tag.name) == Upper(tag.closeName.value))
    ensures CheckTagIsClosed(tag.(closeName := Some(Upper(tag.name)))) == Success([])
    ensures CheckTagIsClosed(tag).Success? ==> |CheckTagIsClosed(tag).value| <= 1
  {
    UpperIdempotent(tag.name);
  }

  /** Only a self-closing tag whose upper-cased name is listed is reported; the same tag written open passes. */
  lemma SelfClosingRule(tag: HtmlTag, nonSelfClosingTags: set<string>)
    ensures CheckSelfClosingTagIsAllowed(tag, nonSelfClosingTags) == [] <==>
              !tag.selfClosing || Upper(tag.name) !in nonSelfClosingTags
    ensures CheckSelfClosingTagIsAllowed(tag.(selfClosing := false), nonSelfClosingTags) == []
  {
  }

  /** The tags that may not contain text (a sorted array searched with binarySearch). */
  const NO_STRING_LITERAL: seq<string> := ["BR", "HR", "IMG", "TABLE", "TR", "VR"]

  /** A child whose text is present and not blank. */
  predicate HasText(child: HtmlContent)
  {
    child.text.Some? && Trim(child.text.value) != ""
  }

  /** checkStringLiteralIsAllowed: for a tag that may not contain text, one error per child with text. */
  function StringLiteralErrors(tag: HtmlTag): seq<Error>
  {
    if Upper(tag.name) in NO_STRING_LITERAL then
      seq(Count(HasText, tag.children), _ => Error("Tag '<" + tag.name + ">' cannot contain a string literal.", TagName))
    else []
  }

  /** The loop of checkStringLiteralIsAllowed over the tag's children. */
  method CheckStringLiteralIsAllowed(tag: HtmlTag) returns (errors: seq<Error>)
    ensures errors == StringLiteralErrors(tag)
  {
    errors := [];
    var error := Error("Tag '<" + tag.name + ">' cannot contain a string literal.", TagName);
    if Upper(tag.name) in NO_STRING_LITERAL {
      for i := 0 to |tag.children|
        invariant errors == seq(Count(HasText, tag.children[..i]), _ => error)
      {
        CountPrefixStep(HasText, tag.children, i);
        var text := tag.children[i].text;
        if text.Some? && Trim(text.value) != "" {
          errors := errors + [error];
        }
      }
      assert tag.children[..|tag.children|] == tag.children;
    }
  }

  /** Exactly the children with non-blank text are reported, and only for BR, HR, IMG, TABLE, TR and VR. */
  lemma StringLiteralErrorsCount(tag: HtmlTag)
    ensures Upper(tag.name) in {"BR", "HR", "IMG", "TABLE", "TR", "VR"} ==>
              |StringLiteralErrors(tag)| == Count(HasText, tag.children)
    ensures Upper(tag.name) !in {"BR", "HR", "IMG", "TABLE", "TR", "VR"} ==> StringLiteralErrors(tag) == []
    ensures (forall i :: 0 <= i < |tag.children| ==>
               (tag.children[i].text.None? ||
                forall k :: 0 <= k < |tag.children[i].text.value| ==> tag.children[i].text.value[k] <= ' ')) ==>
              StringLiteralErrors(tag) == []
  {
    if forall i :: 0 <= i < |tag.children| ==>
         (tag.children[i].text.None? ||
          forall k :: 0 <= k < |tag.children[i].text.value| ==> tag.children[i].text.value[k] <= ' ') {
      forall i | 0 <= i < |tag.children|
        ensures !HasText(tag.children[i])
      {
        if tag.children[i].text.Some? {
          TrimEmptyIff(tag.children[i].text.value);
        }
      }
      NoneCounted(tag.children);
    }
  }

  lemma {:induction false} NoneCounted(children: seq<HtmlContent>)
    requires forall i :: 0 <= i < |children| ==> !HasText(children[i])
    ensures Count(HasText, children) == 0
  {
    if |children| > 0 {
      NoneCounted(children[1..]);
    }
  }

  /** The tables of DotHtmlLabelHelper that checkTagNameIsValid consults. */
  datatype TagTables = TagTables(allTags: set<string>, rootTagKey: string,
                                 validTags: map<string, set<string>>, allowedParents: map<string, seq<string>>)

  /**
   * checkTagNameIsValid: an unknown tag is not supported; a known tag must
   * be allowed inside its parent tag (the root key when the tag has no
   * parent tag). The message lists the allowed parents; a tag missing from
   * that table makes String.join throw.
   */
  function CheckTagNameIsValid(tag: HtmlTag, parentName: Option<string>, tables: TagTables): Result<seq<Error>>
  {
    var upper := Upper(tag.name);
    if upper !in tables.allTags then
      Success([Error("Tag '<" + tag.name + ">' is not supported.", TagName)])
    else
      var parent := if parentName.Some? then parentName.value else tables.rootTagKey;
      if Upper(parent) in tables.validTags && upper in tables.validTags[Upper(parent)] then Success([])
      else if upper !in tables.allowedParents then Failure(NullPointer)
      else
        Success([Error("Tag '<" + tag.name + ">' is not allowed inside '<" + parent + ">', but only inside '<" +
                       Join(tables.allowedParents[upper], ">', '<") + ">'.", TagName)])
  }

  /** A tag is accepted exactly when it is known and allowed inside its parent, ignoring case. */
  lemma TagNameAcceptedIff(tag: HtmlTag, parentName: Option<string>, tables: TagTables)
    ensures var parent := if parentName.Some? then parentName.value else tables.rootTagKey;
            CheckTagNameIsValid(tag, parentName, tables) == Success([]) <==>
              Upper(tag.name) in tables.allTags && Upper(parent) in tables.validTags &&
              Upper(tag.name) in tables.validTags[Upper(parent)]
  {
  }

  /**
   * checkAttributeNameIsValid: for an attribute inside a tag, an error
   * unless the tag has a set of valid attributes that holds the name,
   * ignoring case; an attribute outside a tag is not checked.
   */
  function CheckAttributeNameIsValid(attr: HtmlAttr, tagName: Option<string>, validAttributes: map<string, set<string>>)
    : seq<Error>
  {
    if tagName.None? then []
    else if Upper(tagName.value) !in validAttributes || Upper(attr.name) !in validAttributes[Upper(tagName.value)] then
      [Error("Attribute '" + attr.name + "' is not allowed inside '<" + tagName.value + ">'.", AttrName)]
    else []
  }

  /** Attribute names are checked without regard to case. */
  lemma AttributeNameIgnoresCase(attr: HtmlAttr, tagName: string, validAttributes: map<string, set<string>>)
    ensures CheckAttributeNameIsValid(attr, Some(tagName), validAttributes) == [] <==>
              CheckAttributeNameIsValid(HtmlAttr(Upper(attr.name), attr.value), Some(Upper(tagName)), validAttributes) == []
  {
    UpperIdempotent(attr.name);
    UpperIdempotent(tagName);
  }

  /**
   * checkAttributeValueIsValid: for an attribute inside a tag, the value
   * without its double quotes is checked against the rule for the tag and
   * attribute; an error carries the rule's message.
   */
  function CheckAttributeValueIsValid(attr: HtmlAttr, tagName: Option<string>): seq<Error>
  {
    var value := RemoveDoubleQuotes(attr.value);
    if tagName.None? then []
    else match AttributeValueError(tagName.value, attr.name, value)
      case None => []
      case Some(message) =>
        [Error("The value '" + value + "' is not a correct " + attr.name + ": " + message, AttrValue)]
  }

  /** Quoting a value does not change whether it is accepted. */
  lemma AttributeValueIgnoresQuotes(attr: HtmlAttr, tagName: string)
    ensures CheckAttributeValueIsValid(HtmlAttr(attr.name, "\"" + attr.value + "\""), Some(tagName)) == [] <==>
              AttributeValueError(tagName, attr.name, attr.value) == None
  {
    RemoveDoubleQuotesStrips(attr.value, attr.value);
  }
}
