/**
 * Menu labels: how a raw label such as "&Open..." becomes a path component
 * ("open"), the label shown ("Open...") and the index of the underlined
 * mnemonic character (0). This is `MfxMenubar.labeltoname`.
 *
 * The mnemonic is found by the regular expression `^(.*)&([^&].*)$` under
 * Python's `re.search` semantics: `.` does not match a line break, `$`
 * matches at the end or just before a final line break, and the greedy first
 * group makes the split happen at the LAST ampersand that is followed by a
 * character other than an ampersand.
 */
module Labels {
  import opened Wrappers

  /** The triple returned by labeltoname. `underline` is -1 when there is no mnemonic. */
  datatype Naming = Naming(name: string, display: string, underline: int)

  /** The character class `[0-9a-zA-Z]`. */
  predicate IsAlnum(c: char) {
    ('0' <= c <= '9') || ('a' <= c <= 'z') || ('A' <= c <= 'Z')
  }

  /** A character that can appear in a path component: `[0-9a-z]`. */
  predicate IsPathChar(c: char) {
    ('0' <= c <= '9') || ('a' <= c <= 'z')
  }

  /** ASCII lower-casing (all that `.lower()` can meet after the filter). */
  function ToLower(c: char): (r: char)
    ensures 'A' <= c <= 'Z' ==> r as int == c as int + 32
    ensures !('A' <= c <= 'Z') ==> r == c
  {
    if 'A' <= c <= 'Z' then (c as int + 32) as char else c
  }

  /** `re.sub(r"[^0-9a-zA-Z]", "", text).lower()`. */
  function PathName(text: string): (name: string)
    ensures |name| <= |text|
    ensures forall i :: 0 <= i < |name| ==> IsPathChar(name[i])
  {
    if text == [] then []
    else (if IsAlnum(text[0]) then [ToLower(text[0])] else []) + PathName(text[1..])
  }

  /** Path names distribute over concatenation. */
  lemma {:induction false} PathNameAppend(a: string, b: string)
    ensures PathName(a + b) == PathName(a) + PathName(b)
  {
    if a == [] {
      assert a + b == b;
    } else {
      var head := if IsAlnum(a[0]) then [ToLower(a[0])] else [];
      assert (a + b)[0] == a[0];
      assert (a + b)[1..] == a[1..] + b;
      PathNameAppend(a[1..], b);
      calc {
        PathName(a + b);
        head + PathName(a[1..] + b);
        head + (PathName(a[1..]) + PathName(b));
        (head + PathName(a[1..])) + PathName(b);
        PathName(a) + PathName(b);
      }
    }
  }

  /** One character: an alphanumeric is kept, lower-cased; anything else is dropped. */
  lemma PathNameSingle(c: char)
    ensures PathName([c]) == if IsAlnum(c) then [ToLower(c)] else []
  {
    assert [c][1..] == [];
  }

  /**
   * A label made only of `[0-9a-zA-Z]` keeps every character, in order, with
   * `A-Z` lowered to `a-z`.
   */
  lemma {:induction false} PathNameOfAlnum(s: string)
    requires forall i :: 0 <= i < |s| ==> IsAlnum(s[i])
    ensures |PathName(s)| == |s|
    ensures forall i :: 0 <= i < |s| ==> PathName(s)[i] == ToLower(s[i])
  {
    if s != [] {
      PathNameOfAlnum(s[1..]);
      assert PathName(s) == [ToLower(s[0])] + PathName(s[1..]);
      forall i | 1 <= i < |s|
        ensures PathName(s)[i] == ToLower(s[i])
      {
        assert PathName(s)[i] == PathName(s[1..])[i - 1];
        assert s[1..][i - 1] == s[i];
      }
    }
  }

  /** A label made only of `[0-9a-z]` is its own path name. */
  lemma {:induction false} PathNameFixesPathChars(s: string)
    requires forall i :: 0 <= i < |s| ==> IsPathChar(s[i])
    ensures PathName(s) == s
  {
    if s != [] {
      PathNameFixesPathChars(s[1..]);
      assert [s[0]] + s[1..] == s;
    }
  }

  /** Deriving a name from a derived name changes nothing. */
  lemma PathNameIdempotent(text: string)
    ensures PathName(PathName(text)) == PathName(text)
  {
    PathNameFixesPathChars(PathName(text));
  }

  /** `re.sub(r"\&\&", "&", s)`: every non-overlapping `&&`, left to right, becomes `&`. */
  function Unescape(s: string): (r: string)
    ensures |r| <= |s|
  {
    if |s| >= 2 && s[0] == '&' && s[1] == '&' then "&" + Unescape(s[2..])
    else if s == [] then []
    else [s[0]] + Unescape(s[1..])
  }

  /** Doubling every ampersand: the inverse of Unescape. */
  function Escape(s: string): string {
    if s == [] then [] else (if s[0] == '&' then "&&" else [s[0]]) + Escape(s[1..])
  }

  lemma {:induction false} UnescapeEscape(s: string)
    ensures Unescape(Escape(s)) == s
  {
    if s != [] {
      UnescapeEscape(s[1..]);
      if s[0] == '&' {
        assert Escape(s) == "&&" + Escape(s[1..]);
        assert ("&&" + Escape(s[1..]))[2..] == Escape(s[1..]);
      } else {
        assert Escape(s) == [s[0]] + Escape(s[1..]);
        assert ([s[0]] + Escape(s[1..]))[1..] == Escape(s[1..]);
      }
      assert [s[0]] + s[1..] == s;
    }
  }

  /** Unescaping keeps a leading character that is not an ampersand. */
  lemma UnescapeKeepsHead(s: string)
    requires s != [] && s[0] != '&'
    ensures Unescape(s) != [] && Unescape(s)[0] == s[0]
  {
  }

  /** What `.*$` accepts after the mnemonic: a line break only as the very last character. */
  predicate TailMatches(rest: string) {
    forall i :: 0 <= i < |rest| - 1 ==> rest[i] != '\n'
  }

  /** The pattern `^(.*)&([^&].*)$` can match with group 1 equal to `text[..p]`. */
  predicate SplitsAt(text: string, p: int) {
    && 0 <= p
    && p + 1 < |text|
    && text[p] == '&'
    && text[p + 1] != '&'
    && '\n' !in text[..p]
    && TailMatches(text[p + 2..])
  }

  /** Where group 2 ends: before a final line break that `$` stops at, else at the end. */
  function GroupEnd(text: string, p: nat): (e: nat)
    requires p + 1 < |text|
    ensures p + 2 <= e <= |text|
  {
    if |text| > p + 2 && text[|text| - 1] == '\n' then |text| - 1 else |text|
  }

  /** The largest split point below `k`: the greedy group 1 tries the longest prefix first. */
  function FindSplit(text: string, k: nat): (r: Option<nat>)
    requires k <= |text|
    ensures r.Some? ==> r.value < k && SplitsAt(text, r.value)
    ensures r.Some? ==> forall q :: r.value < q < k ==> !SplitsAt(text, q)
    ensures r.None? ==> forall q :: 0 <= q < k ==> !SplitsAt(text, q)
  {
    if k == 0 then None
    else if SplitsAt(text, k - 1) then Some(k - 1)
    else FindSplit(text, k - 1)
  }

  /** `MfxMenubar.labeltoname` (with `gettext` the identity). */
  function LabelToName(text: string): (r: Naming)
    ensures r.name == PathName(text)
  {
    var name := PathName(text);
    match FindSplit(text, |text|)
    case None => Naming(name, text, -1)
    case Some(p) =>
      var l1 := Unescape(text[..p]);
      var l2 := Unescape(text[p + 1..GroupEnd(text, p)]);
      Naming(name, l1 + l2, |l1|)
  }

  /** Without a split point the label is kept as it is and there is no mnemonic. */
  lemma LabelWithoutMnemonic(text: string)
    requires forall p :: !SplitsAt(text, p)
    ensures LabelToName(text) == Naming(PathName(text), text, -1)
  {
  }

  /**
   * With a split point, the one used is the last; the shown label is both halves
   * with `&&` collapsed, and the underline points at the character that followed
   * the marker.
   */
  lemma LabelWithMnemonic(text: string, p: nat)
    requires SplitsAt(text, p)
    requires forall q :: p < q ==> !SplitsAt(text, q)
    ensures var r := LabelToName(text);
      && r.underline == |Unescape(text[..p])|
      && r.display == Unescape(text[..p]) + Unescape(text[p + 1..GroupEnd(text, p)])
      && 0 <= r.underline < |r.display|
      && r.display[r.underline] == text[p + 1]
  {
    var f := FindSplit(text, |text|);
    assert f == Some(p);
    UnescapeKeepsHead(text[p + 1..GroupEnd(text, p)]);
  }

  /** The underline is -1 or the index of a non-ampersand character of the shown text. */
  lemma UnderlineInRange(text: string)
    ensures var r := LabelToName(text);
      && -1 <= r.underline < |r.display|
      && (r.underline >= 0 ==> r.display[r.underline] != '&')
  {
    var f := FindSplit(text, |text|);
    if f.Some? {
      LabelWithMnemonic(text, f.value);
    }
  }

  /** A text without any ampersand is shown unchanged, with no mnemonic. */
  lemma PlainLabel(text: string)
    requires '&' !in text
    ensures LabelToName(text) == Naming(PathName(text), text, -1)
  {
    forall p ensures !SplitsAt(text, p) {
      if 0 <= p < |text| {
        assert text[p] in text;
      }
    }
    LabelWithoutMnemonic(text);
  }

  /** Unescaping leaves a text without ampersands alone. */
  lemma {:induction false} UnescapePlain(s: string)
    requires '&' !in s
    ensures Unescape(s) == s
  {
    if s != [] {
      assert s[0] in s;
      assert forall c :: c in s[1..] ==> c in s;
      UnescapePlain(s[1..]);
      assert [s[0]] + s[1..] == s;
    }
  }

  /**
   * A single line whose only ampersand leads it: the ampersand marks the
   * first character, which is underlined, and is dropped from the shown text.
   */
  lemma LeadingMarker(text: string)
    requires |text| >= 2 && text[0] == '&'
    requires forall i :: 1 <= i < |text| ==> text[i] != '&' && text[i] != '\n'
    ensures LabelToName(text) == Naming(PathName(text), text[1..], 0)
  {
    var s := text[1..];
    assert SplitsAt(text, 0);
    LabelWithMnemonic(text, 0);
    assert text[1..GroupEnd(text, 0)] == s;
    assert Unescape(text[..0]) == [];
    assert forall c :: c in s ==> c != '&';
    UnescapePlain(s);
  }

  /** "&Open..." is shown as "Open..." with the O underlined and path component "open". */
  lemma OpenExample()
    ensures LabelToName("&Open...") == Naming("open", "Open...", 0)
  {
    LeadingMarker("&Open...");
  }

  /**
   * "R&&D": the second ampersand is the marker, so the shown text is "R&D"
   * and the underline (2) falls on the D.
   */
  lemma DoubledMarkerExample()
    ensures LabelToName("R&&D") == Naming("rd", "R&D", 2)
  {
    var s := "R&&D";
    assert SplitsAt(s, 2);
    forall q | 2 < q ensures !SplitsAt(s, q) {
    }
    LabelWithMnemonic(s, 2);
    assert s[..2] == "R&";
    assert s[3..GroupEnd(s, 2)] == "D";
    assert Unescape("R&") == "R&";
    assert Unescape("D") == "D";
  }
}
