/** The JavaScript string operations the services use (`trim`, `toLowerCase`,
    `toUpperCase`, `isNaN` on a string, `split(" ")`, `join(" ")`) and
    `CapitalizeFirstLetter` of Helpers.js, which title-cases every word of a
    string that does not read as a number. */
module Helpers {

  // ---------------------------------------------------------------------------
  // Characters
  // ---------------------------------------------------------------------------

  /** The WhiteSpace and LineTerminator code points of ECMAScript: what `trim`
      removes and what `Number(...)` skips around a numeral. */
  predicate IsJsWhitespace(c: char) {
    || c == '\t' || c == '\n' || c == '\U{B}' || c == '\U{C}' || c == '\r' || c == ' '
    || c == '\U{A0}' || c == '\U{1680}' || ('\U{2000}' <= c <= '\U{200A}')
    || c == '\U{2028}' || c == '\U{2029}' || c == '\U{202F}' || c == '\U{205F}'
    || c == '\U{3000}' || c == '\U{FEFF}'
  }

  /** `toUpperCase` on one character, ASCII letters only. */
  function ToUpper(c: char): (u: char)
    ensures 'a' <= c <= 'z' ==> 'A' <= u <= 'Z' && u as int == c as int - 32
    ensures !('a' <= c <= 'z') ==> u == c
  {
    if 'a' <= c <= 'z' then (c as int - 32) as char else c
  }

  /** `toLowerCase` on one character, ASCII letters only. */
  function ToLower(c: char): (l: char)
    ensures 'A' <= c <= 'Z' ==> 'a' <= l <= 'z' && l as int == c as int + 32
    ensures !('A' <= c <= 'Z') ==> l == c
  {
    if 'A' <= c <= 'Z' then (c as int + 32) as char else c
  }

  lemma ToUpperIdempotent(c: char)
    ensures ToUpper(ToUpper(c)) == ToUpper(c)
  {
  }

  // ---------------------------------------------------------------------------
  // trim, toLowerCase
  // ---------------------------------------------------------------------------

  function TrimStart(s: string): string {
    if s != [] && IsJsWhitespace(s[0]) then TrimStart(s[1..]) else s
  }

  function TrimEnd(s: string): string {
    if s != [] && IsJsWhitespace(s[|s| - 1]) then TrimEnd(s[..|s| - 1]) else s
  }

  /** `String.prototype.trim`. */
  function Trim(s: string): string {
    TrimEnd(TrimStart(s))
  }

  lemma {:induction false} TrimStartSlice(s: string)
    ensures |TrimStart(s)| <= |s| && TrimStart(s) == s[|s| - |TrimStart(s)|..]
    ensures forall k :: 0 <= k < |s| - |TrimStart(s)| ==> IsJsWhitespace(s[k])
    ensures TrimStart(s) != [] ==> !IsJsWhitespace(TrimStart(s)[0])
  {
    if s != [] && IsJsWhitespace(s[0]) {
      var rest := s[1..];
      TrimStartSlice(rest);
      var r := TrimStart(rest);
      assert TrimStart(s) == r;
      assert s[|s| - |r|..] == rest[|rest| - |r|..];
      forall k | 0 <= k < |s| - |r| ensures IsJsWhitespace(s[k]) {
        if k > 0 {
          assert s[k] == rest[k - 1];
        }
      }
    }
  }

  lemma {:induction false} TrimEndSlice(s: string)
    ensures |TrimEnd(s)| <= |s| && TrimEnd(s) == s[..|TrimEnd(s)|]
    ensures forall k :: |TrimEnd(s)| <= k < |s| ==> IsJsWhitespace(s[k])
    ensures TrimEnd(s) != [] ==> !IsJsWhitespace(TrimEnd(s)[|TrimEnd(s)| - 1])
  {
    if s != [] && IsJsWhitespace(s[|s| - 1]) {
      TrimEndSlice(s[..|s| - 1]);
    }
  }

  /** `trim` returns a slice of its input, everything it cuts off is
      whitespace, and what it returns neither starts nor ends with whitespace. */
  lemma TrimSlice(s: string) returns (i: nat, j: nat)
    ensures i <= j <= |s| && Trim(s) == s[i..j]
    ensures forall k :: 0 <= k < i ==> IsJsWhitespace(s[k])
    ensures forall k :: j <= k < |s| ==> IsJsWhitespace(s[k])
    ensures Trim(s) != [] ==> !IsJsWhitespace(Trim(s)[0]) && !IsJsWhitespace(Trim(s)[|Trim(s)| - 1])
  {
    var a := TrimStart(s);
    TrimStartSlice(s);
    TrimEndSlice(a);
    i := |s| - |a|;
    j := i + |TrimEnd(a)|;
  }

  /** Trimming twice trims no more than trimming once. */
  lemma TrimIdempotent(s: string)
    ensures Trim(Trim(s)) == Trim(s)
  {
    var i, j := TrimSlice(s);
    var x := Trim(s);
    if x != [] {
      assert TrimStart(x) == x;
      assert TrimEnd(x) == x;
    }
  }

  /** A leading space makes no difference to `trim`. */
  lemma TrimLeadingSpace(s: string)
    ensures Trim(" " + s) == Trim(s)
  {
    assert (" " + s)[1..] == s;
  }

  /** `String.prototype.toLowerCase`, ASCII letters only. */
  function Lower(s: string): (r: string)
    ensures |r| == |s| && forall k :: 0 <= k < |s| ==> r[k] == ToLower(s[k])
  {
    seq(|s|, k requires 0 <= k < |s| => ToLower(s[k]))
  }

  /** Lower-casing twice is lower-casing once. */
  lemma LowerIdempotent(s: string)
    ensures Lower(Lower(s)) == Lower(s)
  {
  }

  /** A string already in lower case keeps its case through a `trim`. */
  lemma LowerOfTrimmedLower(s: string)
    ensures Lower(Trim(Lower(s))) == Trim(Lower(s))
  {
    var l := Lower(s);
    var i, j := TrimSlice(l);
    var x := Trim(l);
    forall k | 0 <= k < |x| ensures ToLower(x[k]) == x[k] {
      assert x[k] == l[i + k] == ToLower(s[i + k]);
    }
  }

  // ---------------------------------------------------------------------------
  // isNaN on a string: ECMAScript StringToNumber (section 7.1.4.1.1 of ECMA-262)
  // ---------------------------------------------------------------------------

  predicate IsDecimalDigit(c: char) { '0' <= c <= '9' }
  predicate IsBinaryDigit(c: char) { c == '0' || c == '1' }
  predicate IsOctalDigit(c: char) { '0' <= c <= '7' }
  predicate IsHexDigit(c: char) { '0' <= c <= '9' || 'a' <= c <= 'f' || 'A' <= c <= 'F' }

  predicate AllDecimal(s: string) { forall k :: 0 <= k < |s| ==> IsDecimalDigit(s[k]) }
  predicate AllBinary(s: string) { forall k :: 0 <= k < |s| ==> IsBinaryDigit(s[k]) }
  predicate AllOctal(s: string) { forall k :: 0 <= k < |s| ==> IsOctalDigit(s[k]) }
  predicate AllHex(s: string) { forall k :: 0 <= k < |s| ==> IsHexDigit(s[k]) }

  /** The index of the first `c` in `s`, or `|s|` if there is none. */
  function IndexOf(s: string, c: char): (k: nat)
    ensures k <= |s|
  {
    if s == [] then 0 else if s[0] == c then 0 else 1 + IndexOf(s[1..], c)
  }

  /** The index of the first exponent indicator `e` or `E`, or `|s|`. */
  function IndexOfExponent(s: string): (k: nat)
    ensures k <= |s|
  {
    if s == [] then 0 else if s[0] == 'e' || s[0] == 'E' then 0 else 1 + IndexOfExponent(s[1..])
  }

  /** DecimalDigits . DecimalDigits? | . DecimalDigits | DecimalDigits */
  predicate IsMantissa(m: string) {
    var d := IndexOf(m, '.');
    if d == |m| then |m| > 0 && AllDecimal(m)
    else AllDecimal(m[..d]) && AllDecimal(m[d + 1..]) && (d > 0 || d + 1 < |m|)
  }

  /** An optional ExponentPart: `e` or `E`, an optional sign, DecimalDigits. */
  predicate IsExponentPart(x: string) {
    x == [] ||
    (var y := if |x| > 1 && (x[1] == '+' || x[1] == '-') then x[2..] else x[1..];
     |y| > 0 && AllDecimal(y))
  }

  predicate IsStrUnsignedDecimalLiteral(t: string) {
    t == "Infinity" ||
    (var k := IndexOfExponent(t); IsMantissa(t[..k]) && IsExponentPart(t[k..]))
  }

  predicate IsStrDecimalLiteral(t: string) {
    if t != [] && (t[0] == '+' || t[0] == '-') then IsStrUnsignedDecimalLiteral(t[1..])
    else IsStrUnsignedDecimalLiteral(t)
  }

  /** 0b…, 0o… or 0x… with at least one digit and no sign. */
  predicate IsNonDecimalIntegerLiteral(t: string) {
    |t| >= 3 && t[0] == '0' &&
    (((t[1] == 'b' || t[1] == 'B') && AllBinary(t[2..])) ||
     ((t[1] == 'o' || t[1] == 'O') && AllOctal(t[2..])) ||
     ((t[1] == 'x' || t[1] == 'X') && AllHex(t[2..])))
  }

  /** `!isNaN(s)` for a string `s`: `Number(s)` is not NaN, that is `s` is blank
      or is a numeral surrounded by optional whitespace. */
  predicate IsNumeric(s: string) {
    var t := Trim(s);
    t == [] || IsNonDecimalIntegerLiteral(t) || IsStrDecimalLiteral(t)
  }

  /** `Number("")` is 0, so the empty word produced by two consecutive spaces
      reads as a number. */
  lemma EmptyIsNumeric()
    ensures IsNumeric("")
  {
  }

  // ---------------------------------------------------------------------------
  // split(" ") and join(" ")
  // ---------------------------------------------------------------------------

  /** `s.split(" ")`: the maximal space-free pieces between single spaces,
      empty pieces included; never an empty list. */
  function Split(s: string): (ws: seq<string>)
    ensures |ws| >= 1
    ensures forall k :: 0 <= k < |ws| ==> ' ' !in ws[k]
  {
    if s == [] then [[]]
    else if s[0] == ' ' then [[]] + Split(s[1..])
    else var rest := Split(s[1..]); [[s[0]] + rest[0]] + rest[1..]
  }

  /** `ws.join(" ")`. */
  function Join(ws: seq<string>): string {
    if ws == [] then [] else if |ws| == 1 then ws[0] else ws[0] + " " + Join(ws[1..])
  }

  predicate SpaceFree(ws: seq<string>) {
    forall k :: 0 <= k < |ws| ==> ' ' !in ws[k]
  }

  /** Joining the pieces gives the string back. */
  lemma {:induction false} JoinSplit(s: string)
    ensures Join(Split(s)) == s
  {
    if s == [] {
    } else if s[0] == ' ' {
      JoinSplit(s[1..]);
      assert s == " " + s[1..];
    } else {
      var rest := Split(s[1..]);
      JoinSplit(s[1..]);
      if |rest| == 1 {
        assert s == [s[0]] + rest[0];
      } else {
        assert Join(rest) == rest[0] + " " + Join(rest[1..]);
        assert ([s[0]] + rest[0]) + " " + Join(rest[1..]) == [s[0]] + Join(rest);
        assert ([[s[0]] + rest[0]] + rest[1..])[1..] == rest[1..];
      }
    }
  }

  lemma {:induction false} SplitWordThenRest(w: string, t: string)
    requires ' ' !in w
    ensures Split(w + " " + t) == [w] + Split(t)
  {
    if w == [] {
      assert w + " " + t == " " + t;
      assert (" " + t)[1..] == t;
    } else {
      var u := w + " " + t;
      assert u[0] == w[0] && u[1..] == w[1..] + " " + t;
      SplitWordThenRest(w[1..], t);
      assert [w[0]] + w[1..] == w;
    }
  }

  lemma {:induction false} SplitWord(w: string)
    requires ' ' !in w
    ensures Split(w) == [w]
  {
    if w != [] {
      SplitWord(w[1..]);
      assert [w[0]] + w[1..] == w;
    }
  }

  /** Splitting a join of space-free pieces gives the pieces back. */
  lemma {:induction false} SplitJoin(ws: seq<string>)
    requires |ws| >= 1 && SpaceFree(ws)
    ensures Split(Join(ws)) == ws
  {
    if |ws| == 1 {
      SplitWord(ws[0]);
    } else {
      SplitJoin(ws[1..]);
      SplitWordThenRest(ws[0], Join(ws[1..]));
      assert [ws[0]] + ws[1..] == ws;
    }
  }

  // ---------------------------------------------------------------------------
  // CapitalizeFirstLetter
  // ---------------------------------------------------------------------------

  /** `w.charAt(0).toUpperCase() + w.slice(1)`: the empty word stays empty. */
  function UpperFirst(w: string): (v: string)
    ensures |v| == |w|
    ensures w != [] ==> v[0] == ToUpper(w[0]) && v[1..] == w[1..]
  {
    if w == [] then [] else [ToUpper(w[0])] + w[1..]
  }

  /** What the loop of CapitalizeFirstLetter does to one word. */
  function CapWord(w: string): string {
    if IsNumeric(w) then w else UpperFirst(w)
  }

  function CapWords(ws: seq<string>): (vs: seq<string>)
    ensures |vs| == |ws| && forall k :: 0 <= k < |ws| ==> vs[k] == CapWord(ws[k])
  {
    seq(|ws|, k requires 0 <= k < |ws| => CapWord(ws[k]))
  }

  /** The value CapitalizeFirstLetter returns for a string input. */
  function Capitalized(s: string): string {
    if s == [] then s else Join(CapWords(Split(s)))
  }

  /** How the services store a project title or a user's name, major and
      school: trimmed, lower-cased, then passed to CapitalizeFirstLetter. */
  function Normalised(s: string): string {
    Capitalized(Lower(Trim(s)))
  }

  /** Helpers.js: a string that is empty is returned as it is; otherwise it
      is split on single spaces into an array of words, the words are
      capitalised in place, and the array is joined again. */
  method CapitalizeFirstLetter(str: string) returns (r: string)
    ensures r == Capitalized(str)
  {
    if |str| == 0 {
      return str;
    }
    var parts := Split(str);
    var words := new string[|parts|](k requires 0 <= k < |parts| => parts[k]);
    assert words[..] == parts;
    CapitalizeWords(words);
    r := Join(words[..]);
  }

  /** The in-place part of CapitalizeFirstLetter: the first word is rewritten
      when `words[0] && isNaN(words[0])`, then every later word for which
      `isNaN` holds (a numeric word is skipped with `continue`). */
  method CapitalizeWords(words: array<string>)
    requires words.Length >= 1
    modifies words
    ensures words[..] == CapWords(old(words[..]))
  {
    ghost var original := words[..];
    if words[0] != [] && !IsNumeric(words[0]) {
      words[0] := UpperFirst(words[0]);
    }
    for i := 1 to words.Length
      invariant forall k :: 0 <= k < i ==> words[k] == CapWord(original[k])
      invariant forall k :: i <= k < words.Length ==> words[k] == original[k]
    {
      CapitalizeWordAt(words, i);
    }
    assert words[..] == CapWords(original);
  }

  /** The body of the loop: `words[i]` is left as it is (`continue`) when it
      reads as a number, and otherwise gets its first character uppercased. */
  method CapitalizeWordAt(words: array<string>, i: nat)
    requires i < words.Length
    modifies words
    ensures words[i] == CapWord(old(words[i]))
    ensures forall k :: 0 <= k < words.Length && k != i ==> words[k] == old(words[k])
  {
    var word := words[i];
    if IsNumeric(word) {
      return;
    }
    words[i] := UpperFirst(word);
  }

  // ---------------------------------------------------------------------------
  // What CapitalizeFirstLetter promises
  // ---------------------------------------------------------------------------

  lemma CapWordSpaceFree(w: string)
    requires ' ' !in w
    ensures ' ' !in CapWord(w)
  {
    if w != [] {
      assert CapWord(w)[0] == w[0] || CapWord(w)[0] == ToUpper(w[0]);
      forall k | 0 <= k < |w| ensures CapWord(w)[k] != ' ' {
        if k > 0 { assert CapWord(w)[k] == w[k]; }
      }
    }
  }

  /** The words of the result are the words of the input, each one that does
      not read as a number with its first character upper-cased: every word,
      not only the first, and the word count is unchanged. */
  lemma CapitalizedWords(s: string)
    requires s != []
    ensures Split(Capitalized(s)) == CapWords(Split(s))
    ensures |Split(Capitalized(s))| == |Split(s)|
  {
    var ws := Split(s);
    forall k | 0 <= k < |ws| ensures ' ' !in CapWords(ws)[k] {
      CapWordSpaceFree(ws[k]);
    }
    SplitJoin(CapWords(ws));
  }

  /** `v` is `w` with at most its first character upper-cased. */
  predicate SameShape(w: string, v: string) {
    && |v| == |w|
    && (forall j :: 0 < j < |w| ==> v[j] == w[j])
    && (w != [] ==> v[0] == w[0] || v[0] == ToUpper(w[0]))
  }

  /** Position `i` of `b` holds the character of `a`, or, at the start of a
      word of `a`, that character upper-cased. */
  predicate KeptOrWordStartUpper(a: string, b: string, i: nat)
    requires i < |a| && i < |b|
  {
    b[i] == a[i] || (b[i] == ToUpper(a[i]) && (i == 0 || a[i - 1] == ' '))
  }

  lemma {:induction false} JoinShape(ws: seq<string>, vs: seq<string>)
    requires |ws| == |vs| >= 1 && SpaceFree(ws)
    requires forall k :: 0 <= k < |ws| ==> SameShape(ws[k], vs[k])
    ensures |Join(vs)| == |Join(ws)|
    ensures forall i :: 0 <= i < |Join(ws)| ==> KeptOrWordStartUpper(Join(ws), Join(vs), i)
  {
    if |ws| > 1 {
      JoinShape(ws[1..], vs[1..]);
      var a, b := Join(ws), Join(vs);
      var a', b' := Join(ws[1..]), Join(vs[1..]);
      var n := |ws[0]|;
      assert a == ws[0] + " " + a' && b == vs[0] + " " + b';
      forall i | 0 <= i < |a| ensures KeptOrWordStartUpper(a, b, i) {
        if i < n {
          assert a[i] == ws[0][i] && b[i] == vs[0][i];
        } else if i == n {
          assert a[i] == ' ' && b[i] == ' ';
        } else {
          assert a[i] == a'[i - n - 1] && b[i] == b'[i - n - 1];
          assert KeptOrWordStartUpper(a', b', i - n - 1);
          if i - n - 1 == 0 {
            assert a[i - 1] == ' ';
          } else {
            assert a[i - 1] == a'[i - n - 2];
          }
        }
      }
    }
  }

  /** Character by character: the result has the length of the input, every
      character is kept except that a word's first character may be
      upper-cased, and spaces stand exactly where they stood. */
  lemma CapitalizedPointwise(s: string)
    ensures |Capitalized(s)| == |s|
    ensures forall i :: 0 <= i < |s| ==>
      Capitalized(s)[i] == s[i] ||
      (Capitalized(s)[i] == ToUpper(s[i]) && (i == 0 || s[i - 1] == ' '))
    ensures forall i :: 0 <= i < |s| ==> (Capitalized(s)[i] == ' ' <==> s[i] == ' ')
  {
    if s != [] {
      var ws := Split(s);
      var vs := CapWords(ws);
      forall k | 0 <= k < |ws| ensures SameShape(ws[k], vs[k]) {
        CapWordShape(ws[k]);
      }
      JoinShape(ws, vs);
      JoinSplit(s);
      var r := Capitalized(s);
      assert r == Join(vs) && s == Join(ws);
      forall i | 0 <= i < |s|
        ensures r[i] == s[i] || (r[i] == ToUpper(s[i]) && (i == 0 || s[i - 1] == ' '))
        ensures r[i] == ' ' <==> s[i] == ' '
      {
        assert KeptOrWordStartUpper(Join(ws), Join(vs), i);
        assert ToUpper(s[i]) == ' ' <==> s[i] == ' ';
      }
    }
  }

  /** A word keeps its length and all but possibly its first character. */
  lemma CapWordShape(w: string)
    ensures SameShape(w, CapWord(w))
  {
  }

  lemma CapWordIdempotent(w: string)
    ensures CapWord(CapWord(w)) == CapWord(w)
  {
    if !IsNumeric(w) && w != [] {
      ToUpperIdempotent(w[0]);
      assert UpperFirst(UpperFirst(w)) == UpperFirst(w);
    }
  }

  /** Applying CapitalizeFirstLetter twice equals applying it once. */
  lemma CapitalizedIdempotent(s: string)
    ensures Capitalized(Capitalized(s)) == Capitalized(s)
  {
    if s != [] {
      var r := Capitalized(s);
      CapitalizedPointwise(s);
      CapitalizedWords(s);
      var vs := CapWords(Split(s));
      forall k | 0 <= k < |vs| ensures CapWord(vs[k]) == vs[k] {
        CapWordIdempotent(Split(s)[k]);
      }
      assert CapWords(Split(r)) == vs;
    }
  }

  /** A word that starts with a lower-case ASCII letter never reads as a number. */
  lemma LetterWordNotNumeric(w: string)
    requires w != [] && 'a' <= w[0] <= 'z'
    ensures !IsNumeric(w)
  {
    var i, j := TrimSlice(w);
    var t := Trim(w);
    assert t != [] && t[0] == w[0];
    var k := IndexOfExponent(t);
    if k > 0 {
      var m := t[..k];
      assert m[0] == t[0];
      var d := IndexOf(m, '.');
      assert d > 0;
      assert !IsDecimalDigit(m[0]);
      if d < |m| {
        assert m[..d][0] == m[0];
      }
    }
  }

  /** Every word is title-cased, not only the first: for words that start
      with a lower-case letter, the result is each word with its first letter
      upper-cased, joined by the same single spaces. */
  lemma EveryWordCapitalized(ws: seq<string>)
    requires |ws| >= 1 && SpaceFree(ws)
    requires forall k :: 0 <= k < |ws| ==> ws[k] != [] && 'a' <= ws[k][0] <= 'z'
    ensures Capitalized(Join(ws)) == Join(seq(|ws|, k requires 0 <= k < |ws| => UpperFirst(ws[k])))
  {
    SplitJoin(ws);
    assert Join(ws) != [] by {
      if |ws| > 1 {
        assert Join(ws) == ws[0] + " " + Join(ws[1..]);
      }
    }
    forall k | 0 <= k < |ws| ensures CapWord(ws[k]) == UpperFirst(ws[k]) {
      LetterWordNotNumeric(ws[k]);
    }
    assert CapWords(ws) == seq(|ws|, k requires 0 <= k < |ws| => UpperFirst(ws[k]));
  }
}
