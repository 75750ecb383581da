/** The status label shown in status-change emails: underscores become
    spaces, then the text is title-cased the way Python's str.title does it
    (a cased character is upper-cased when the character before it is not
    cased, and lower-cased otherwise).  Only the ASCII letters are cased in
    this model. */
module Labels {

  predicate IsUpper(c: char) { 'A' <= c <= 'Z' }

  predicate IsLower(c: char) { 'a' <= c <= 'z' }

  predicate IsLetter(c: char) { IsUpper(c) || IsLower(c) }

  function ToUpper(c: char): (r: char)
    ensures IsLetter(c) ==> IsUpper(r)
    ensures IsLetter(r) == IsLetter(c)
    ensures !IsLetter(c) ==> r == c
  {
    if IsLower(c) then (c as int - 32) as char else c
  }

  function ToLower(c: char): (r: char)
    ensures IsLetter(c) ==> IsLower(r)
    ensures IsLetter(r) == IsLetter(c)
    ensures !IsLetter(c) ==> r == c
  {
    if IsUpper(c) then (c as int + 32) as char else c
  }

  /** The case ToUpper or ToLower gives a letter does not depend on the case
      it had. */
  lemma CaseOfCase(c: char)
    requires IsLetter(c)
    ensures ToUpper(ToUpper(c)) == ToUpper(c) && ToUpper(ToLower(c)) == ToUpper(c)
    ensures ToLower(ToLower(c)) == ToLower(c) && ToLower(ToUpper(c)) == ToLower(c)
  {
  }

  /** `s.replace('_', ' ')`. */
  function ReplaceUnderscores(s: string): (r: string)
    ensures |r| == |s|
    ensures forall i :: 0 <= i < |s| ==> r[i] == if s[i] == '_' then ' ' else s[i]
  {
    if s == [] then [] else [if s[0] == '_' then ' ' else s[0]] + ReplaceUnderscores(s[1..])
  }

  /** The title-casing loop of str.title, with `prevCased` the state flag. */
  function TitleFrom(s: string, prevCased: bool): (r: string)
    ensures |r| == |s|
  {
    if s == [] then []
    else
      var c := s[0];
      var c' := if !IsLetter(c) then c else if prevCased then ToLower(c) else ToUpper(c);
      [c'] + TitleFrom(s[1..], IsLetter(c))
  }

  /** `s.title()`. */
  function Title(s: string): (r: string)
    ensures |r| == |s|
  {
    TitleFrom(s, false)
  }

  /** The label transform of the status-change email. */
  function Label(status: string): (r: string)
    ensures |r| == |status|
  {
    Title(ReplaceUnderscores(status))
  }

  /** What str.title puts at position `i`, stated without the state flag:
      a letter is upper-cased exactly when it starts the text or follows a
      non-letter, every other letter is lower-cased, the rest is kept. */
  function TitleChar(s: string, i: nat): char
    requires i < |s|
  {
    if !IsLetter(s[i]) then s[i]
    else if i == 0 || !IsLetter(s[i - 1]) then ToUpper(s[i])
    else ToLower(s[i])
  }

  lemma {:induction false} TitleFromAt(s: string, prevCased: bool, i: nat)
    requires i < |s|
    ensures TitleFrom(s, prevCased)[i] ==
      if !IsLetter(s[i]) then s[i]
      else if (if i == 0 then prevCased else IsLetter(s[i - 1])) then ToLower(s[i])
      else ToUpper(s[i])
  {
    if i > 0 {
      TitleFromAt(s[1..], IsLetter(s[0]), i - 1);
      assert TitleFrom(s, prevCased)[i] == TitleFrom(s[1..], IsLetter(s[0]))[i - 1];
    }
  }

  lemma TitleAt(s: string, i: nat)
    requires i < |s|
    ensures Title(s)[i] == TitleChar(s, i)
  {
    TitleFromAt(s, false, i);
  }

  /** Title-casing keeps which positions hold letters. */
  lemma TitleKeepsLetters(s: string, i: nat)
    requires i < |s|
    ensures IsLetter(Title(s)[i]) == IsLetter(s[i])
  {
    TitleAt(s, i);
  }

  lemma TitleCaseAt(s: string, i: nat)
    requires i < |s| && IsLetter(Title(s)[i])
    ensures IsUpper(Title(s)[i]) <==> i == 0 || !IsLetter(Title(s)[i - 1])
    ensures IsLower(Title(s)[i]) <==> i > 0 && IsLetter(Title(s)[i - 1])
  {
    TitleAt(s, i);
    if i > 0 { TitleKeepsLetters(s, i - 1); }
  }

  /** In a title-cased text a letter is upper case iff it is the first
      character or follows a non-letter; every other letter is lower case. */
  lemma TitleCase(s: string)
    ensures forall i :: 0 <= i < |Title(s)| && IsLetter(Title(s)[i]) ==>
      (IsUpper(Title(s)[i]) <==> i == 0 || !IsLetter(Title(s)[i - 1])) &&
      (IsLower(Title(s)[i]) <==> i > 0 && IsLetter(Title(s)[i - 1]))
  {
    forall i | 0 <= i < |Title(s)| && IsLetter(Title(s)[i]) {
      TitleCaseAt(s, i);
    }
  }

  /** str.title is idempotent. */
  lemma TitleIdempotent(s: string)
    ensures Title(Title(s)) == Title(s)
  {
    var t := Title(s);
    forall i | 0 <= i < |s|
      ensures Title(t)[i] == t[i]
    {
      TitleAt(t, i);
      TitleAt(s, i);
      if i > 0 { TitleKeepsLetters(s, i - 1); }
      if IsLetter(s[i]) { CaseOfCase(s[i]); }
    }
  }

  /** The label, position by position, in terms of the status string. */
  lemma LabelAt(status: string, i: nat)
    requires i < |status|
    ensures Label(status)[i] ==
      if status[i] == '_' then ' '
      else if !IsLetter(status[i]) then status[i]
      else if i == 0 || !IsLetter(status[i - 1]) then ToUpper(status[i])
      else ToLower(status[i])
  {
    TitleAt(ReplaceUnderscores(status), i);
  }

  /** No underscore survives; every underscore became a space; letters are
      cased as str.title promises. */
  lemma LabelShape(status: string)
    ensures '_' !in Label(status)
    ensures forall i :: 0 <= i < |status| && status[i] == '_' ==> Label(status)[i] == ' '
    ensures forall i :: 0 <= i < |Label(status)| && IsLetter(Label(status)[i]) ==>
      (IsUpper(Label(status)[i]) <==> i == 0 || !IsLetter(Label(status)[i - 1]))
  {
    var r := Label(status);
    forall i | 0 <= i < |status| ensures r[i] != '_' && (status[i] == '_' ==> r[i] == ' ') {
      LabelAt(status, i);
    }
    TitleCase(ReplaceUnderscores(status));
  }

  /** Applying the label transform twice is the same as applying it once. */
  lemma LabelIdempotent(status: string)
    ensures Label(Label(status)) == Label(status)
  {
    var r := Label(status);
    LabelShape(status);
    assert ReplaceUnderscores(r) == r;
    TitleIdempotent(ReplaceUnderscores(status));
  }

  /** The worked examples of the status-change email. */
  lemma LabelPartialOutage(status: string)
    requires status == "partial_outage"
    ensures Label(status) == "Partial Outage"
  {
    var r := ReplaceUnderscores(status);
    assert r == "partial outage";
    var t := Title(r);
    forall i | 0 <= i < |r| ensures t[i] == "Partial Outage"[i] { TitleAt(r, i); }
  }

  lemma LabelOperational(status: string)
    requires status == "operational"
    ensures Label(status) == "Operational"
  {
    var r := ReplaceUnderscores(status);
    assert r == status;
    var t := Title(r);
    forall i | 0 <= i < |r| ensures t[i] == "Operational"[i] { TitleAt(r, i); }
  }
}
