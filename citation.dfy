/** The part of `get_apa_citation` in drcleaner.py that does not talk to the
    text-generation service: what it makes of each kind of reply, the cleanup of
    a returned citation, and the placeholder strings that stand in for a citation. */
module Citation {
  import opened Strings

  /** What the service call produced, as far as `get_apa_citation` looks at it. */
  datatype Reply =
    | Answered(text: string)  // the response has parts; `text` is `response.text`
    | Blocked                 // no parts, and the prompt feedback names a block reason
    | Unanswered              // no parts and no block reason
    | Raised                  // the call or `response.text` raised an exception

  /** The outcome of the cleanup as the code is written: the citation, or the
      `IndexError` raised when the numbering check reads past the end. */
  datatype Cleaned = Ok(text: string) | IndexError

  /** A placeholder is bracketed text; one about a url ends with that url. */
  predicate NamesUrl(r: string, url: string) {
    |r| > |url| + 1 && r[0] == '[' && r[|r| - 1] == ']' && r[|r| - 1 - |url|..|r| - 1] == url
  }

  /** What is returned when no model was passed. */
  function NotConfigured(): (r: string)
    ensures NamesUrl(r, "") && r[1] == 'G'
  {
    "[Gemini API not configured]"
  }

  /** What is returned when the prompt was blocked. */
  function BlockedPlaceholder(url: string): (r: string)
    ensures |r| == 34 + |url| && NamesUrl(r, url) && r[1] == 'A' && r[16] == 'b'
  {
    "[APA generation blocked for URL: " + url + "]"
  }

  /** What is returned when the reply has no parts and no block reason. */
  function FailedPlaceholder(url: string): (r: string)
    ensures |r| == 33 + |url| && NamesUrl(r, url) && r[1] == 'A' && r[16] == 'f'
  {
    "[APA generation failed for URL: " + url + "]"
  }

  /** What is returned when an exception was raised. */
  function ErrorPlaceholder(url: string): (r: string)
    ensures |r| == 32 + |url| && NamesUrl(r, url) && r[1] == 'A' && r[16] == 'e'
  {
    "[APA generation error for URL: " + url + "]"
  }

  /** The four placeholders tell the failure apart, and each names its url:
      two placeholders are equal only when they are of the same kind and for
      the same url. */
  lemma PlaceholdersDistinct(u: string, v: string)
    ensures NotConfigured() != BlockedPlaceholder(u)
    ensures NotConfigured() != FailedPlaceholder(u)
    ensures NotConfigured() != ErrorPlaceholder(u)
    ensures BlockedPlaceholder(u) != FailedPlaceholder(v)
    ensures BlockedPlaceholder(u) != ErrorPlaceholder(v)
    ensures FailedPlaceholder(u) != ErrorPlaceholder(v)
    ensures BlockedPlaceholder(u) == BlockedPlaceholder(v) ==> u == v
    ensures FailedPlaceholder(u) == FailedPlaceholder(v) ==> u == v
    ensures ErrorPlaceholder(u) == ErrorPlaceholder(v) ==> u == v
  {
    var b, f, e := BlockedPlaceholder(u), FailedPlaceholder(u), ErrorPlaceholder(u);
    assert NotConfigured()[1] != b[1] && NotConfigured()[1] != f[1] && NotConfigured()[1] != e[1];
  }

  /** `t.startswith(("- ", "* "))`. */
  predicate HasListMarker(t: string)
    ensures HasListMarker(t) <==> |t| >= 2 && (t[..2] == "- " || t[..2] == "* ")
  {
    |t| >= 2 && (t[0] == '-' || t[0] == '*') && t[1] == ' '
  }

  /** A one-digit numbering prefix such as `"1. "`. */
  predicate IsNumbering(p: string) {
    |p| == 3 && IsDigit(p[0]) && p[1] == '.' && p[2] == ' '
  }

  /** What the cleanup may remove from the front of a citation: at most one
      list marker, then at most one one-digit numbering prefix. */
  predicate Removable(p: string) {
    p == [] || (|p| == 2 && HasListMarker(p)) || IsNumbering(p)
    || (|p| == 5 && HasListMarker(p) && IsNumbering(p[2..]))
  }

  /** The citation after the list-marker step. */
  function DropListMarker(t: string): (r: string)
    ensures HasListMarker(t) ==> r == t[2..]
    ensures !HasListMarker(t) ==> r == t
    ensures |r| <= |t| && t == t[..|t| - |r|] + r && Removable(t[..|t| - |r|])
  {
    if HasListMarker(t) then
      assert t == t[..2] + t[2..];
      t[2..]
    else
      assert t[..0] == [];
      t
  }

  /** Removing a numbering prefix after the list-marker step leaves a suffix
      of the citation behind a removable prefix. */
  lemma DropNumbering(t: string, u: string)
    requires u == DropListMarker(t) && |u| >= 3 && IsNumbering(u[..3])
    ensures t == t[..|t| - |u| + 3] + u[3..] && Removable(t[..|t| - |u| + 3])
  {
    var p := t[..|t| - |u| + 3];
    if HasListMarker(t) {
      assert p == t[..2] + u[..3];
      assert p[0] == t[0] && p[1] == t[1] && p[2..] == u[..3];
    } else {
      assert p == u[..3];
    }
  }

  /** No removable prefix of the citation is longer than what the two steps
      remove: a list marker when there is one, then a numbering prefix when
      there is one. */
  lemma LongestRemovable(t: string)
    ensures var u := DropListMarker(t);
      var r := if |u| >= 3 && IsNumbering(u[..3]) then u[3..] else u;
      forall p :: |p| <= |t| && t[..|p|] == p && Removable(p) ==> |p| <= |t| - |r|
  {
  }

  /** The inputs on which the numbering check of the code as written indexes past
      the end: a digit followed by nothing, or by `.` and nothing. */
  predicate ShortNumbered(u: string) {
    u != [] && IsDigit(u[0]) && (|u| == 1 || (|u| == 2 && u[1] == '.'))
  }

  /** The cleanup exactly as written: `citation[1]` and `citation[2]` are read
      without a length check once `citation[0]` is a digit. */
  function CleanupAsWritten(t: string): (r: Cleaned)
    ensures r.IndexError? <==> ShortNumbered(DropListMarker(t))
    ensures r.Ok? ==> |r.text| <= |t| && t == t[..|t| - |r.text|] + r.text
                      && Removable(t[..|t| - |r.text|])
    ensures r.Ok? ==> forall p :: |p| <= |t| && t[..|p|] == p && Removable(p) ==> |p| <= |t| - |r.text|
  {
    LongestRemovable(t);
    var u := DropListMarker(t);
    if u == [] || !IsDigit(u[0]) then Ok(u)
    else if |u| < 2 then IndexError
    else if u[1] != '.' then Ok(u)
    else if |u| < 3 then IndexError
    else if u[2] != ' ' then Ok(u)
    else
      DropNumbering(t, u);
      Ok(u[3..])
  }

  /** The cleanup with the length check the numbering step evidently intends:
      it never fails; a short numbered citation keeps its digit. */
  function Cleanup(t: string): (r: string)
    ensures |r| <= |t| && t == t[..|t| - |r|] + r && Removable(t[..|t| - |r|])
    ensures forall p :: |p| <= |t| && t[..|p|] == p && Removable(p) ==> |p| <= |t| - |r|
    ensures ShortNumbered(DropListMarker(t)) ==> r == DropListMarker(t)
  {
    LongestRemovable(t);
    var u := DropListMarker(t);
    if |u| >= 3 && IsNumbering(u[..3]) then
      DropNumbering(t, u);
      u[3..]
    else u
  }

  /** The code as written and the intended cleanup agree on every citation
      except the short numbered ones, on which the code raises. */
  lemma AsWrittenAgrees(t: string)
    ensures CleanupAsWritten(t)
      == if ShortNumbered(DropListMarker(t)) then IndexError else Ok(Cleanup(t))
  {
  }

  /** `get_apa_citation(model, url)` once the service has replied with `reply`;
      `configured` says whether a model object was passed at all. */
  function GetApaCitation(configured: bool, url: string, reply: Reply): (r: string)
    ensures !configured ==> r == NotConfigured()
    ensures configured && reply.Blocked? ==> r == BlockedPlaceholder(url)
    ensures configured && reply.Unanswered? ==> r == FailedPlaceholder(url)
    ensures configured && reply.Raised? ==> r == ErrorPlaceholder(url)
    ensures configured && reply.Answered? ==>
      var t := Strip(reply.text);
      if ShortNumbered(DropListMarker(t)) then r == ErrorPlaceholder(url)
      else r == Cleanup(t) && |r| <= |t| && t[|t| - |r|..] == r
  {
    if !configured then NotConfigured()
    else
      match reply
      case Answered(text) =>
        AsWrittenAgrees(Strip(text));
        (match CleanupAsWritten(Strip(text))
         case Ok(c) => c
         case IndexError => ErrorPlaceholder(url))
      case Blocked => BlockedPlaceholder(url)
      case Unanswered => FailedPlaceholder(url)
      case Raised => ErrorPlaceholder(url)
  }

  /** A multi-digit numbering prefix such as `"10. "` is left in place. */
  lemma MultiDigitNumberingKept(t: string)
    requires |t| >= 2 && IsDigit(t[0]) && IsDigit(t[1])
    ensures CleanupAsWritten(t) == Ok(t) && Cleanup(t) == t
  {
    assert DropListMarker(t) == t by { assert !HasListMarker(t); }
    assert |t| < 3 || !IsNumbering(t[..3]) by {
      if |t| >= 3 { assert t[..3][1] == t[1]; }
    }
  }

  /** A numbering prefix is removed. */
  lemma NumberingPrefixRemoved(rest: string)
    ensures CleanupAsWritten("1. " + rest) == Ok(rest) && Cleanup("1. " + rest) == rest
  {
    var t := "1. " + rest;
    assert t[0] == '1' && t[1] == '.' && t[2] == ' ' && t[3..] == rest;
    assert !HasListMarker(t) && IsNumbering(t[..3]);
  }

  /** A numbering prefix behind a list marker is removed as well. */
  lemma MarkedNumberingRemoved(rest: string)
    ensures CleanupAsWritten("* 1. " + rest) == Ok(rest) && Cleanup("* 1. " + rest) == rest
  {
    var t := "* 1. " + rest;
    assert HasListMarker(t) by { assert t[0] == '*' && t[1] == ' '; }
    assert DropListMarker(t) == "1. " + rest by { assert t[2..] == "1. " + rest; }
    NumberingPrefixRemoved(rest);
  }

  /** Only one list marker is removed: a doubled marker keeps its second one. */
  lemma OneListMarkerRemoved(rest: string)
    ensures Cleanup("- - " + rest) == "- " + rest
  {
    assert ("- - " + rest)[..2] == "- ";
    assert ("- - " + rest)[2..] == "- " + rest;
  }

  /** An answered reply gives an empty citation exactly when its text is all
      white space: `strip()` leaves no trailing space for the marker or the
      numbering step to end on. This is when the fallback of the numbering loop
      in `reformat_markdown` is used. */
  lemma EmptyCitationIffBlank(url: string, text: string)
    ensures GetApaCitation(true, url, Answered(text)) == ""
        <==> forall i :: 0 <= i < |text| ==> IsSpace(text[i])
  {
    var t := Strip(text);
    assert GetApaCitation(true, url, Answered(text)) == "" <==> t == [] by {
      var r := GetApaCitation(true, url, Answered(text));
      if ShortNumbered(DropListMarker(t)) {
        assert |r| > 0 && t != [];
      } else {
        CleanupEmpty(t);
      }
    }
  }

  /** A citation that does not end in white space cleans up to nothing only
      when it is empty. */
  lemma CleanupEmpty(t: string)
    requires t == [] || !IsSpace(t[|t| - 1])
    ensures Cleanup(t) == "" <==> t == []
  {
    var r := Cleanup(t);
    if r == "" {
      assert t[..|t|] == t;
      RemovableEndsInSpace(t);
      assert IsSpace(' ');
    }
  }

  /** Every non-empty removable prefix ends in a space. */
  lemma RemovableEndsInSpace(p: string)
    requires Removable(p)
    ensures p == [] || p[|p| - 1] == ' '
  {
  }

  /** The cleanup as written raises on the one-character citation `"7"`, which
      then becomes an error placeholder, while the intended cleanup keeps it. */
  lemma ShortCitationRaises(url: string)
    ensures CleanupAsWritten("7") == IndexError
    ensures GetApaCitation(true, url, Answered("7")) == ErrorPlaceholder(url)
    ensures Cleanup("7") == "7"
  {
    assert DropListMarker("7") == "7" && ShortNumbered("7") by {
      assert !HasListMarker("7");
    }
    assert Strip("7") == "7" by {
      StripKeeps("7");
    }
  }
}
