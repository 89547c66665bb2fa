/** The image path of a shop item, derived from its name by the client's
    file-name normalisation: lower case, trimmed, punctuation removed, runs
    of dashes and white space turned into one underscore, runs of
    underscores collapsed, no underscore at either end. */
module ItemPath {
  import opened JsValues

  const Prefix: string := "/media/shop/items/"
  const Suffix: string := ".jpg"
  const DefaultPath: string := "/media/shop/items/default_item.jpg"

  predicate IsUpper(c: char) { 'A' <= c <= 'Z' }

  /** `toLowerCase` on the ASCII letters. */
  function LowerChar(c: char): (r: char)
    ensures !IsUpper(r)
    ensures !IsUpper(c) ==> r == c
  {
    if IsUpper(c) then (c as int + 32) as char else c
  }

  /** The characters the `\s` class and `trim` remove: the white-space and
      line-terminator code points of ECMAScript. */
  predicate IsSpace(c: char) {
    var k := c as int;
    k == 0x09 || k == 0x0A || k == 0x0B || k == 0x0C || k == 0x0D || k == 0x20 ||
    k == 0xA0 || k == 0x1680 || (0x2000 <= k <= 0x200A) || k == 0x2028 || k == 0x2029 ||
    k == 0x202F || k == 0x205F || k == 0x3000 || k == 0xFEFF
  }

  /** The removed punctuation: quotes, comma, full stop, colon, brackets. */
  predicate IsSpecial(c: char) {
    c == '\'' || c == '"' || c == ',' || c == '.' || c == ':' ||
    c == '(' || c == ')' || c == '[' || c == ']' || c == '{' || c == '}'
  }

  predicate IsDashOrSpace(c: char) { c == '-' || IsSpace(c) }

  /** The characters normalisation may drop or replace: underscores,
      dashes, white space and the removed punctuation. */
  predicate IsSeparator(c: char) { c == '_' || IsDashOrSpace(c) || IsSpecial(c) }

  /** What a name says once its separators are ignored: the characters
      normalisation has to keep, in order. */
  function Content(s: string): (r: string)
    ensures |r| <= |s|
  {
    if |s| == 0 then [] else (if IsSeparator(s[0]) then [] else [s[0]]) + Content(s[1..])
  }

  lemma ContentCons(c: char, s: string)
    ensures Content([c] + s) == (if IsSeparator(c) then [] else [c]) + Content(s)
  {
    assert ([c] + s)[1..] == s;
  }

  /** `Content` distributes over concatenation. */
  lemma {:induction false} ContentAppend(a: string, b: string)
    ensures Content(a + b) == Content(a) + Content(b)
    decreases |a|
  {
    if |a| > 0 {
      var h: string := if IsSeparator(a[0]) then [] else [a[0]];
      assert a + b == [a[0]] + (a[1..] + b);
      ContentCons(a[0], a[1..] + b);
      ContentAppend(a[1..], b);
      assert a == [a[0]] + a[1..];
      ContentCons(a[0], a[1..]);
      assert h + (Content(a[1..]) + Content(b)) == (h + Content(a[1..])) + Content(b);
    } else {
      assert a + b == b;
    }
  }

  /** A separator at the end says nothing. */
  lemma {:induction false} ContentDropLast(s: string)
    requires |s| > 0 && IsSeparator(s[|s| - 1])
    ensures Content(s) == Content(s[..|s| - 1])
    decreases |s|
  {
    if |s| == 1 {
      assert s[..0] == [];
    } else {
      ContentDropLast(s[1..]);
      assert s[1..][..|s| - 2] == s[..|s| - 1][1..];
    }
  }

  /** Every character of `r` occurs in `s`. */
  ghost predicate CharsFrom(r: string, s: string) {
    forall c :: c in r ==> c in s
  }

  ghost predicate NoDoubleUnderscore(s: string) {
    forall i :: 0 <= i < |s| - 1 ==> !(s[i] == '_' && s[i + 1] == '_')
  }

  /** A normalised name: no upper-case letter, white space, dash or
      removed punctuation, no two underscores in a row, and no underscore at
      either end. */
  ghost predicate Normal(n: string) {
    && CleanChars(n)
    && NoDoubleUnderscore(n)
    && (|n| > 0 ==> n[0] != '_' && n[|n| - 1] != '_')
  }

  function Lower(s: string): (r: string)
    ensures |r| == |s| && forall i :: 0 <= i < |s| ==> r[i] == LowerChar(s[i])
    ensures forall c :: c in r ==> !IsUpper(c)
    ensures (forall c :: c in s ==> !IsUpper(c)) ==> r == s
  {
    if |s| == 0 then [] else [LowerChar(s[0])] + Lower(s[1..])
  }

  function TrimStart(s: string): (r: string)
    ensures |r| <= |s|
    ensures CharsFrom(r, s)
    ensures |r| > 0 ==> !IsSpace(r[0])
    ensures |r| > 0 && |s| > 0 && !IsSpace(s[|s| - 1]) ==> !IsSpace(r[|r| - 1])
    ensures |s| == 0 || !IsSpace(s[0]) ==> r == s
  {
    if |s| > 0 && IsSpace(s[0]) then TrimStart(s[1..]) else s
  }

  function TrimEnd(s: string): (r: string)
    ensures |r| <= |s|
    ensures CharsFrom(r, s)
    ensures |r| > 0 ==> !IsSpace(r[|r| - 1])
    ensures |r| > 0 && |s| > 0 && !IsSpace(s[0]) ==> !IsSpace(r[0])
    ensures |s| == 0 || !IsSpace(s[|s| - 1]) ==> r == s
  {
    if |s| > 0 && IsSpace(s[|s| - 1]) then TrimEnd(s[..|s| - 1]) else s
  }

  /** `trim()`: white space removed from both ends. */
  function Trim(s: string): (r: string)
    ensures CharsFrom(r, s)
    ensures |r| > 0 ==> !IsSpace(r[0]) && !IsSpace(r[|r| - 1])
    ensures (forall c :: c in s ==> !IsSpace(c)) ==> r == s
  {
    TrimEnd(TrimStart(s))
  }

  /** What `trim()` keeps is one slice of the input, and only white space
      lies outside it. */
  lemma TrimIsSlice(s: string)
    ensures var r := Trim(s); var k := |s| - |TrimStart(s)|;
            && k + |r| <= |s| && r == s[k..k + |r|]
            && (forall i :: 0 <= i < k ==> IsSpace(s[i]))
            && (forall i :: k + |r| <= i < |s| ==> IsSpace(s[i]))
  {
    var t := TrimStart(s);
    TrimStartIsSuffix(s);
    TrimEndIsPrefix(t);
    PrefixOfSuffix(s, t, TrimEnd(t));
  }

  lemma {:induction false} TrimStartKeepsContent(s: string)
    ensures Content(TrimStart(s)) == Content(s)
    decreases |s|
  {
    if |s| > 0 && IsSpace(s[0]) {
      TrimStartKeepsContent(s[1..]);
    }
  }

  lemma {:induction false} TrimEndKeepsContent(s: string)
    ensures Content(TrimEnd(s)) == Content(s)
    decreases |s|
  {
    if |s| > 0 && IsSpace(s[|s| - 1]) {
      TrimEndKeepsContent(s[..|s| - 1]);
      ContentDropLast(s);
    }
  }

  /** `trim()` cuts only white space, so the content is kept. */
  lemma TrimKeepsContent(s: string)
    ensures Content(Trim(s)) == Content(s)
  {
    TrimStartKeepsContent(s);
    TrimEndKeepsContent(TrimStart(s));
  }

  /** `TrimStart` cuts a prefix made only of white space. */
  lemma {:induction false} TrimStartIsSuffix(s: string)
    ensures var r := TrimStart(s);
            && |r| <= |s| && r == s[|s| - |r|..]
            && forall i :: 0 <= i < |s| - |r| ==> IsSpace(s[i])
    decreases |s|
  {
    if |s| > 0 && IsSpace(s[0]) {
      TrimStartIsSuffix(s[1..]);
      var r := TrimStart(s);
      forall i | 1 <= i < |s| - |r|
        ensures IsSpace(s[i])
      {
        assert s[i] == s[1..][i - 1];
      }
    }
  }

  /** `TrimEnd` cuts a suffix made only of white space. */
  lemma {:induction false} TrimEndIsPrefix(s: string)
    ensures var r := TrimEnd(s);
            && |r| <= |s| && r == s[..|r|]
            && forall i :: |r| <= i < |s| ==> IsSpace(s[i])
    decreases |s|
  {
    if |s| > 0 && IsSpace(s[|s| - 1]) {
      TrimEndIsPrefix(s[..|s| - 1]);
      var r := TrimEnd(s);
      forall i | |r| <= i < |s| - 1
        ensures IsSpace(s[i])
      {
        assert s[i] == s[..|s| - 1][i];
      }
    }
  }

  /** A prefix `r` of a suffix `t` of `s` is a slice of `s`; white space
      cut from both ends of `t`, and from `s` before `t`, surrounds it. */
  lemma PrefixOfSuffix(s: string, t: string, r: string)
    requires |t| <= |s| && t == s[|s| - |t|..]
    requires forall i :: 0 <= i < |s| - |t| ==> IsSpace(s[i])
    requires |r| <= |t| && r == t[..|r|]
    requires forall i :: |r| <= i < |t| ==> IsSpace(t[i])
    ensures var k := |s| - |t|;
            && k + |r| <= |s| && r == s[k..k + |r|]
            && (forall i :: 0 <= i < k ==> IsSpace(s[i]))
            && (forall i :: k + |r| <= i < |s| ==> IsSpace(s[i]))
  {
    var k := |s| - |t|;
    forall i | k + |r| <= i < |s|
      ensures IsSpace(s[i])
    {
      assert s[i] == t[i - k];
    }
  }

  /** `replace(/['",.:()\[\]{}]/g, "")`. */
  function RemoveSpecial(s: string): (r: string)
    ensures CharsFrom(r, s) && forall c :: c in r ==> !IsSpecial(c)
    ensures forall c :: !IsSpecial(c) ==> multiset(r)[c] == multiset(s)[c]
    ensures Content(r) == Content(s)
    ensures (forall c :: c in s ==> !IsSpecial(c)) ==> r == s
  {
    if |s| == 0 then []
    else
      assert s == [s[0]] + s[1..];
      ContentCons(s[0], s[1..]);
      var rest := RemoveSpecial(s[1..]);
      if IsSpecial(s[0]) then rest
      else
        ContentCons(s[0], rest);
        [s[0]] + rest
  }

  /** The suffix after a leading run of dashes and white space. */
  function DropDashRun(s: string): (r: string)
    ensures |r| <= |s| && r == s[|s| - |r|..]
    ensures Content(r) == Content(s)
    ensures |r| > 0 ==> !IsDashOrSpace(r[0])
  {
    if |s| > 0 && IsDashOrSpace(s[0]) then DropDashRun(s[1..]) else s
  }

  /** `replace(/[-\s]+/g, "_")`. */
  function Dashes(s: string): (r: string)
    ensures forall c :: c in r ==> c == '_' || (c in s && !IsDashOrSpace(c))
    ensures Content(r) == Content(s)
    ensures (forall c :: c in s ==> !IsDashOrSpace(c)) ==> r == s
    decreases |s|
  {
    if |s| == 0 then []
    else
      ContentCons(s[0], s[1..]);
      assert s == [s[0]] + s[1..];
      if IsDashOrSpace(s[0]) then
        var rest := Dashes(DropDashRun(s[1..]));
        ContentCons('_', rest);
        "_" + rest
      else
        var rest := Dashes(s[1..]);
        ContentCons(s[0], rest);
        [s[0]] + rest
  }

  /** The suffix after a leading run of underscores. */
  function DropUnderscores(s: string): (r: string)
    ensures |r| <= |s| && r == s[|s| - |r|..]
    ensures Content(r) == Content(s)
    ensures |r| > 0 ==> r[0] != '_'
  {
    if |s| > 0 && s[0] == '_' then DropUnderscores(s[1..]) else s
  }

  /** `replace(/_+/g, "_")`. */
  function Collapse(s: string): (r: string)
    ensures CharsFrom(r, s) && NoDoubleUnderscore(r)
    ensures Content(r) == Content(s)
    ensures |r| > 0 <==> |s| > 0
    ensures |r| > 0 ==> (r[0] == '_' <==> s[0] == '_')
    ensures NoDoubleUnderscore(s) ==> r == s
    decreases |s|
  {
    if |s| == 0 then []
    else
      ContentCons(s[0], s[1..]);
      assert s == [s[0]] + s[1..];
      if s[0] == '_' then
        var t := DropUnderscores(s[1..]);
        assert NoDoubleUnderscore(s) ==> t == s[1..];
        var rest := Collapse(t);
        ContentCons('_', rest);
        "_" + rest
      else
        var rest := Collapse(s[1..]);
        ContentCons(s[0], rest);
        [s[0]] + rest
  }

  /** `replace(/^_|_$/g, "")`: one underscore off each end. */
  function StripEdges(s: string): (r: string)
    ensures CharsFrom(r, s)
    ensures NoDoubleUnderscore(s) ==> NoDoubleUnderscore(r) && (|r| > 0 ==> r[0] != '_' && r[|r| - 1] != '_')
    ensures |s| == 0 || (s[0] != '_' && s[|s| - 1] != '_') ==> r == s
  {
    var a := if |s| > 0 && s[0] == '_' then s[1..] else s;
    assert NoDoubleUnderscore(s) ==> NoDoubleUnderscore(a);
    if |a| > 0 && a[|a| - 1] == '_' then a[..|a| - 1] else a
  }

  /** At most one underscore comes off each end, and nothing else. */
  lemma StripEdgesShape(s: string)
    ensures var r := StripEdges(s);
            s == r || s == "_" + r || s == r + "_" || s == "_" + r + "_"
  {
    var a := if |s| > 0 && s[0] == '_' then s[1..] else s;
    assert |s| > 0 && s[0] == '_' ==> s == "_" + a;
    assert |a| > 0 && a[|a| - 1] == '_' ==> a == a[..|a| - 1] + "_";
  }

  lemma StripEdgesKeepsContent(s: string)
    ensures Content(StripEdges(s)) == Content(s)
  {
    var a := if |s| > 0 && s[0] == '_' then s[1..] else s;
    if |s| > 0 && s[0] == '_' {
      assert s == "_" + a;
      ContentCons('_', a);
    }
    if |a| > 0 && a[|a| - 1] == '_' {
      ContentDropLast(a);
    }
  }

  /** Lower case, trimmed, punctuation removed. */
  function Cleaned(s: string): (r: string)
    ensures forall c :: c in r ==> !IsUpper(c) && !IsSpecial(c)
    ensures Content(r) == Lower(Content(s))
    ensures (forall c :: c in s ==> !IsUpper(c) && !IsSpace(c) && !IsSpecial(c)) ==> r == s
  {
    var lowered := Lower(s);
    LowerKeepsContent(s);
    var trimmed := Trim(lowered);
    TrimKeepsContent(lowered);
    assert forall c :: c in trimmed ==> !IsUpper(c);
    RemoveSpecial(trimmed)
  }

  /** Dash and white-space runs to one underscore, underscore runs
      collapsed, edge underscores removed. */
  function Underscored(s: string): (r: string)
    ensures (forall c :: c in s ==> !IsUpper(c) && !IsSpecial(c)) ==> Normal(r)
    ensures Content(r) == Content(s)
    ensures Normal(s) ==> r == s
  {
    var collapsed := Collapse(Dashes(s));
    DashesClean(s);
    StripEdgesKeepsContent(collapsed);
    StripEdges(collapsed)
  }

  /** Without upper-case letters and removed punctuation, replacing dashes
      and white space leaves only the characters a normal name may hold. */
  lemma DashesClean(s: string)
    ensures (forall c :: c in s ==> !IsUpper(c) && !IsSpecial(c)) ==> CleanChars(Dashes(s))
  {
  }

  /** Lower-casing neither makes nor unmakes a separator. */
  lemma LowerCharSeparator(c: char)
    ensures IsSeparator(LowerChar(c)) == IsSeparator(c)
    ensures !IsSeparator(c) ==> [LowerChar(c)] == Lower([c])
  {
    if IsUpper(c) {
      assert 'a' <= LowerChar(c) <= 'z';
    }
  }

  lemma LowerAppend(a: string, b: string)
    ensures Lower(a + b) == Lower(a) + Lower(b)
  {
    var l, m := Lower(a + b), Lower(a) + Lower(b);
    forall i | 0 <= i < |a + b|
      ensures l[i] == m[i]
    {
      if i < |a| {
        assert (a + b)[i] == a[i];
      } else {
        assert (a + b)[i] == b[i - |a|];
      }
    }
    assert l == m;
  }

  /** Lower-casing commutes with dropping separators. */
  lemma {:induction false} LowerKeepsContent(s: string)
    ensures Content(Lower(s)) == Lower(Content(s))
    decreases |s|
  {
    if |s| > 0 {
      var c := s[0];
      LowerKeepsContent(s[1..]);
      assert Lower(s) == [LowerChar(c)] + Lower(s[1..]);
      ContentCons(LowerChar(c), Lower(s[1..]));
      LowerCharSeparator(c);
      assert s == [c] + s[1..];
      ContentCons(c, s[1..]);
      var head: string := if IsSeparator(c) then [] else [c];
      LowerAppend(head, Content(s[1..]));
    }
  }

  /** The whole normalisation chain: its result is always normal, and it
      keeps the name's content, lower-cased, in order. */
  function Normalize(s: string): (n: string)
    ensures Normal(n)
    ensures Content(n) == Lower(Content(s))
  {
    Underscored(Cleaned(s))
  }

  /** The character part of `Normal`. */
  ghost predicate CleanChars(s: string) {
    forall c :: c in s ==> !IsUpper(c) && !IsSpace(c) && !IsSpecial(c) && c != '-'
  }

  /** A normal name is left as it is. */
  lemma NormalIsFixed(n: string)
    requires Normal(n)
    ensures Normalize(n) == n
  {
    assert Cleaned(n) == n;
  }

  /** Normalising twice is normalising once. */
  lemma NormalizeIdempotent(s: string)
    ensures Normalize(Normalize(s)) == Normalize(s)
  {
    NormalIsFixed(Normalize(s));
  }

  /** `getItemImagePath(itemName)`: the default image for a missing, empty
      or non-string name and for one that normalises to nothing; otherwise
      the normalised name inside the items directory. */
  function GetItemImagePath(itemName: Json): (r: string)
    ensures !itemName.Str? || itemName.s == "" ==> r == DefaultPath
    ensures itemName.Str? && Normalize(itemName.s) == "" ==> r == DefaultPath
    ensures itemName.Str? && itemName.s != "" && Normalize(itemName.s) != "" ==>
              r == Prefix + Normalize(itemName.s) + Suffix
  {
    if !Truthy(itemName) || !itemName.Str? then DefaultPath
    else
      var n := Normalize(itemName.s);
      if n == "" then DefaultPath else Prefix + n + Suffix
  }

  /** The name inside a non-default path is a normal name, so normalising
      it again yields the same path component. */
  lemma PathNameIsStable(itemName: Json)
    requires GetItemImagePath(itemName) != DefaultPath
    ensures itemName.Str?
    ensures var n := Normalize(itemName.s);
            n != "" && Normal(n) && Normalize(n) == n
  {
    NormalizeIdempotent(itemName.s);
  }
}
