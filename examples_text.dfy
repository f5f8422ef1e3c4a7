/** Worked cases of the text element's behaviour on concrete inputs. */
module TextElementCases {
  import opened PhpValues
  import opened PhpArrays
  import opened PhpStrings
  import opened Duration
  import opened TextElement

  /** "@{}" captures nothing. */
  lemma EmptyBracesNotAToken()
    ensures Tokens("@{}") == []
  {
    assert CloseIndex("@{}", 2) == 2;
    assert "@{}"[1..] == "{}";
    assert "{}"[1..] == "}";
  }

  /** A key runs up to the first '}'. */
  lemma KeyStopsAtFirstBrace()
    ensures Tokens("@{a}}") == ["a"]
  {
    var s := "@{a}}";
    assert CloseIndex(s, 3) == 3;
    assert CloseIndex(s, 2) == 3;
    assert s[2..3] == "a";
    assert s[4..] == "}";
  }

  lemma OneHourShort()
    ensures ShortText(3600) == "1 hour "
  {
    ShortFormFinestFirst(3600);
    RenderOne(ShortForm(3600));
  }

  lemma TwoHoursShort()
    ensures ShortText(7200) == "2 hours "
  {
    ShortFormFinestFirst(7200);
    RenderOne(ShortForm(7200));
  }

  /** The pairs are applied one after another: a course value that itself
      reads like a user placeholder is substituted again by the user pair. */
  lemma SequentialReplacement()
    ensures StrReplace([Prop("@{course_fullname}", Str("@{user_firstname}")),
                        Prop("@{user_firstname}", Str("Ann"))], "@{course_fullname}") == "Ann"
  {
    var p1 := Prop("@{course_fullname}", Str("@{user_firstname}"));
    var p2 := Prop("@{user_firstname}", Str("Ann"));
    assert [p1, p2][..1] == [p1];
    assert [p1][..0] == [];
    assert ReplaceAll("@{course_fullname}", "@{course_fullname}", "@{user_firstname}") == "@{user_firstname}";
    assert ReplaceAll("@{user_firstname}", "@{user_firstname}", "Ann") == "Ann";
  }

  /** The string "0" is PHP-empty, so a placeholder whose field holds "0"
      blanks the whole text. */
  lemma ZeroSuppresses(text: string, fields: Dict)
    requires "user_idnumber" in Tokens(text)
    requires Lookup(fields, "user_idnumber") == Some(Str("0"))
    ensures Substituted(text, fields) == ""
  {
    UnresolvedSuppresses(text, fields, "user_idnumber");
  }
}
