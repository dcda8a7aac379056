/** The few Python `str` operations the analyzer relies on, over ASCII:
    `strip()`, `lower()`, `upper()`, `title()`, substring search and `join`.
    Non-ASCII whitespace and non-ASCII case mappings are not modelled. */
module Text {

  /** Characters `str.strip()` removes (the ASCII ones `str.isspace()` accepts). */
  predicate IsSpace(c: char) {
    c == ' ' || (9 <= c as int <= 13) || (28 <= c as int <= 31)
  }

  predicate IsUpper(c: char) { 'A' <= c <= 'Z' }
  predicate IsLower(c: char) { 'a' <= c <= 'z' }
  predicate IsCased(c: char) { IsUpper(c) || IsLower(c) }

  function LowerChar(c: char): (r: char)
    ensures IsCased(c) <==> IsCased(r)
    ensures !IsUpper(r)
  {
    if IsUpper(c) then (c as int + 32) as char else c
  }

  function UpperChar(c: char): (r: char)
    ensures IsCased(c) <==> IsCased(r)
    ensures !IsLower(r)
  {
    if IsLower(c) then (c as int - 32) as char else c
  }

  /** `s.lower()` */
  function Lower(s: string): (r: string)
    ensures |r| == |s|
    ensures forall i :: 0 <= i < |s| ==> r[i] == LowerChar(s[i])
  {
    seq(|s|, i requires 0 <= i < |s| => LowerChar(s[i]))
  }

  /** `s.upper()` */
  function Upper(s: string): (r: string)
    ensures |r| == |s|
    ensures forall i :: 0 <= i < |s| ==> r[i] == UpperChar(s[i])
  {
    seq(|s|, i requires 0 <= i < |s| => UpperChar(s[i]))
  }

  function StripLeft(s: string): (r: string)
    ensures |r| <= |s| && r == s[|s| - |r|..]
    ensures |r| > 0 ==> !IsSpace(r[0])
    ensures forall k :: 0 <= k < |s| - |r| ==> IsSpace(s[k])
  {
    if |s| > 0 && IsSpace(s[0]) then StripLeft(s[1..]) else s
  }

  function StripRight(s: string): (r: string)
    ensures |r| <= |s| && r == s[..|r|]
    ensures |r| > 0 ==> !IsSpace(r[|r| - 1])
    ensures forall k :: |r| <= k < |s| ==> IsSpace(s[k])
  {
    if |s| > 0 && IsSpace(s[|s| - 1]) then StripRight(s[..|s| - 1]) else s
  }

  /** `r` is `s[i..i + |r|]` and everything of `s` around it is whitespace. */
  predicate SpaceAround(s: string, r: string, i: int) {
    0 <= i <= |s| - |r| && r == s[i..i + |r|]
    && (forall k :: 0 <= k < i ==> IsSpace(s[k]))
    && (forall k :: i + |r| <= k < |s| ==> IsSpace(s[k]))
  }

  /** `s.strip()`: the slice of `s` left once the surrounding whitespace is removed. */
  function Strip(s: string): (r: string)
    ensures |r| > 0 ==> !IsSpace(r[0]) && !IsSpace(r[|r| - 1])
    ensures exists i :: SpaceAround(s, r, i)
  {
    var l := StripLeft(s);
    var r := StripRight(l);
    assert SpaceAround(s, r, |s| - |l|);
    r
  }

  /** A string is blank when `not v or len(v.strip()) == 0`. */
  predicate IsBlank(s: string) {
    Strip(s) == []
  }

  lemma {:induction false} BlankIsAllSpace(s: string)
    ensures IsBlank(s) <==> forall k :: 0 <= k < |s| ==> IsSpace(s[k])
  {
    if !IsBlank(s) {
      var r := Strip(s);
      var i :| SpaceAround(s, r, i);
      assert s[i] == r[0];
    }
  }

  function TitleFrom(s: string, afterCased: bool): (r: string)
    ensures |r| == |s|
  {
    if |s| == 0 then []
    else if IsCased(s[0]) then
      [if afterCased then LowerChar(s[0]) else UpperChar(s[0])] + TitleFrom(s[1..], true)
    else [s[0]] + TitleFrom(s[1..], false)
  }

  /** `s.title()`: a letter is upper-cased when it starts a run of letters and
      lower-cased otherwise; other characters are kept. */
  function Title(s: string): (r: string)
    ensures |r| == |s|
  {
    TitleFrom(s, false)
  }

  /** Each letter of `Title(s)` is upper-case exactly when it starts a run of letters. */
  lemma {:induction false} TitleShape(s: string, afterCased: bool, i: nat)
    requires i < |s|
    ensures IsCased(TitleFrom(s, afterCased)[i]) <==> IsCased(s[i])
    ensures IsCased(s[i]) ==>
      (IsUpper(TitleFrom(s, afterCased)[i]) <==> (if i == 0 then !afterCased else !IsCased(s[i - 1])))
  {
    if i > 0 {
      TitleShape(s[1..], IsCased(s[0]), i - 1);
    }
  }

  lemma {:induction false} TitleFromIdempotent(s: string, afterCased: bool)
    ensures TitleFrom(TitleFrom(s, afterCased), afterCased) == TitleFrom(s, afterCased)
  {
    if |s| > 0 {
      TitleFromIdempotent(s[1..], IsCased(s[0]));
    }
  }

  lemma UpperIdempotent(s: string)
    ensures Upper(Upper(s)) == Upper(s)
  {
  }

  /** A string with no whitespace at either end is its own `strip()`. */
  lemma StripTrimmed(s: string)
    requires |s| > 0 ==> !IsSpace(s[0]) && !IsSpace(s[|s| - 1])
    ensures Strip(s) == s
  {
    var r := Strip(s);
    var i :| SpaceAround(s, r, i);
    if |s| > 0 {
      assert i == 0;
      assert |r| == |s|;
    }
  }

  /** `s.strip().strip() == s.strip()` */
  lemma StripIdempotent(s: string)
    ensures Strip(Strip(s)) == Strip(s)
  {
    StripTrimmed(Strip(s));
  }

  /** `title()` keeps every character that is not a letter. */
  lemma {:induction false} TitleKeepsUncased(s: string, afterCased: bool, i: nat)
    requires i < |s| && !IsCased(s[i])
    ensures TitleFrom(s, afterCased)[i] == s[i]
  {
    if i > 0 {
      TitleKeepsUncased(s[1..], IsCased(s[0]), i - 1);
    }
  }

  /** `title()` and `upper()` change letters only, so whitespace stays where it was. */
  lemma CaseKeepsSpace(s: string, i: nat)
    requires i < |s|
    ensures IsSpace(Title(s)[i]) <==> IsSpace(s[i])
    ensures IsSpace(Upper(s)[i]) <==> IsSpace(s[i])
  {
    if IsCased(s[i]) {
      TitleShape(s, false, i);
    } else {
      TitleKeepsUncased(s, false, i);
    }
  }

  /** Title-casing or upper-casing a stripped string leaves nothing to strip. */
  lemma CaseOfStripped(s: string)
    ensures Strip(Title(Strip(s))) == Title(Strip(s))
    ensures Strip(Upper(Strip(s))) == Upper(Strip(s))
  {
    var r := Strip(s);
    if |r| > 0 {
      CaseKeepsSpace(r, 0);
      CaseKeepsSpace(r, |r| - 1);
    }
    StripTrimmed(Title(r));
    StripTrimmed(Upper(r));
  }

  /** `needle in hay` for strings (a plain substring test). */
  predicate Contains(hay: string, needle: string)
    decreases |hay|
  {
    needle <= hay || (|hay| > 0 && Contains(hay[1..], needle))
  }

  predicate OccursAt(hay: string, needle: string, i: int) {
    0 <= i <= |hay| - |needle| && hay[i..i + |needle|] == needle
  }

  lemma {:induction false} ContainsAt(hay: string, needle: string)
    ensures Contains(hay, needle) <==> exists i :: OccursAt(hay, needle, i)
    decreases |hay|
  {
    if needle <= hay {
      assert OccursAt(hay, needle, 0);
    }
    if |hay| > 0 {
      ContainsAt(hay[1..], needle);
      if Contains(hay[1..], needle) {
        var i :| OccursAt(hay[1..], needle, i);
        assert OccursAt(hay, needle, i + 1);
      }
      if exists i :: OccursAt(hay, needle, i) {
        var i :| OccursAt(hay, needle, i);
        if i > 0 {
          assert OccursAt(hay[1..], needle, i - 1);
        } else {
          assert needle <= hay;
        }
      }
    } else if needle == [] {
      assert OccursAt(hay, needle, 0);
    }
  }

  /** `sep.join(xs)` */
  function Join(xs: seq<string>, sep: string): string
  {
    if |xs| == 0 then ""
    else if |xs| == 1 then xs[0]
    else xs[0] + sep + Join(xs[1..], sep)
  }
}
