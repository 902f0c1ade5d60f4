/**
 * `parse_fasta` in simulate.py, given the lines of the file rather than its
 * path: every line that does not start with '>' is stripped of surrounding
 * whitespace, upper-cased, and the results are joined in order.
 */
module Fasta {

  /** The characters Python's `str.strip()` removes (`str.isspace`). */
  predicate IsSpace(c: char)
  {
    var n := c as int;
    || n == 0x20 || 0x09 <= n <= 0x0D || 0x1C <= n <= 0x1F || n == 0x85 || n == 0xA0
    || n == 0x1680 || 0x2000 <= n <= 0x200A || n == 0x2028 || n == 0x2029
    || n == 0x202F || n == 0x205F || n == 0x3000
  }

  /** `lstrip()`: the longest suffix of s that does not start with whitespace. */
  function StripLeft(s: string): (r: string)
    ensures |r| <= |s|
  {
    if s != [] && IsSpace(s[0]) then StripLeft(s[1..]) else s
  }

  /** `rstrip()`: the longest prefix of s that does not end with whitespace. */
  function StripRight(s: string): (r: string)
    ensures |r| <= |s|
  {
    if s != [] && IsSpace(s[|s| - 1]) then StripRight(s[..|s| - 1]) else s
  }

  /** `strip()`. */
  function Strip(s: string): string
  {
    StripRight(StripLeft(s))
  }

  /** `upper()` on one character, for the ASCII letters. */
  function UpperChar(c: char): char
  {
    if 'a' <= c <= 'z' then (c as int - 'a' as int + 'A' as int) as char else c
  }

  /** `upper()`: every character upper-cased in place. */
  function Upper(s: string): (r: string)
    ensures |r| == |s|
  {
    if s == [] then [] else [UpperChar(s[0])] + Upper(s[1..])
  }

  /** `line.startswith('>')`. */
  predicate IsHeader(line: string)
  {
    |line| > 0 && line[0] == '>'
  }

  /** `line.strip().upper()`. */
  function CleanLine(line: string): string
  {
    Upper(Strip(line))
  }

  /** The generator `line.strip().upper() for line in lines if not line.startswith('>')`. */
  function Cleaned(lines: seq<string>): (parts: seq<string>)
    ensures |parts| <= |lines|
  {
    if lines == [] then []
    else
      var last := lines[|lines| - 1];
      Cleaned(lines[..|lines| - 1]) + (if IsHeader(last) then [] else [CleanLine(last)])
  }

  /** `''.join(parts)`. */
  function Join(parts: seq<string>): string
  {
    if parts == [] then [] else Join(parts[..|parts| - 1]) + parts[|parts| - 1]
  }

  /** `parse_fasta` on the lines of the file. */
  function ParseFasta(lines: seq<string>): string
  {
    Join(Cleaned(lines))
  }

  predicate IsLower(c: char)
  {
    'a' <= c <= 'z'
  }

  // ---------------------------------------------------------------------
  // Lemmas
  // ---------------------------------------------------------------------

  /** `lstrip()` removes leading whitespace only, and all of it. */
  lemma {:induction false} StripLeftRemovesSpace(s: string)
    ensures var r := StripLeft(s); r == s[|s| - |r|..]
    ensures var r := StripLeft(s); r == [] || !IsSpace(r[0])
    ensures forall i :: 0 <= i < |s| - |StripLeft(s)| ==> IsSpace(s[i])
  {
    if s != [] && IsSpace(s[0]) {
      StripLeftRemovesSpace(s[1..]);
    }
  }

  /** `rstrip()` removes trailing whitespace only, and all of it. */
  lemma {:induction false} StripRightRemovesSpace(s: string)
    ensures var r := StripRight(s); r == s[..|r|]
    ensures var r := StripRight(s); r == [] || !IsSpace(r[|r| - 1])
    ensures forall i :: |StripRight(s)| <= i < |s| ==> IsSpace(s[i])
  {
    if s != [] && IsSpace(s[|s| - 1]) {
      StripRightRemovesSpace(s[..|s| - 1]);
    }
  }

  /** `strip()` keeps a contiguous stretch of the line that neither starts nor ends with
    * whitespace, and removes only whitespace around it. */
  lemma {:induction false} StripMeaning(s: string) returns (a: nat, b: nat)
    ensures a <= b <= |s| && Strip(s) == s[a..b]
    ensures forall i :: 0 <= i < a ==> IsSpace(s[i])
    ensures forall i :: b <= i < |s| ==> IsSpace(s[i])
    ensures a < b ==> !IsSpace(s[a]) && !IsSpace(s[b - 1])
    ensures a == b ==> forall i :: 0 <= i < |s| ==> IsSpace(s[i])
  {
    var l := StripLeft(s);
    StripLeftRemovesSpace(s);
    StripRightRemovesSpace(l);
    a := |s| - |l|;
    b := a + |StripRight(l)|;
    assert s[a..b] == l[..b - a];
    forall i | b <= i < |s|
      ensures IsSpace(s[i])
    {
      assert s[i] == l[i - a];
    }
  }

  /** `strip()` is idempotent. */
  lemma {:induction false} StripIdempotent(s: string)
    ensures Strip(Strip(s)) == Strip(s)
  {
    var a, b := StripMeaning(s);
    var t := Strip(s);
    assert t == [] || !IsSpace(t[0]);
    assert StripLeft(t) == t;
    assert StripRight(t) == t;
  }

  /** Upper-casing keeps the length, changes only lower-case ASCII letters, leaves no
    * lower-case ASCII letter behind, and is idempotent. */
  lemma {:induction false} UpperMeaning(s: string)
    ensures |Upper(s)| == |s|
    ensures forall i :: 0 <= i < |s| ==> (Upper(s)[i] == s[i] <==> !IsLower(s[i]))
    ensures forall i :: 0 <= i < |s| ==> !IsLower(Upper(s)[i])
    ensures Upper(Upper(s)) == Upper(s)
  {
    UpperPointwise(s);
    UpperPointwise(Upper(s));
  }

  lemma {:induction false} UpperPointwise(s: string)
    ensures forall i :: 0 <= i < |s| ==> Upper(s)[i] == UpperChar(s[i])
  {
    if s != [] {
      UpperPointwise(s[1..]);
    }
  }

  /** `''.join` of a concatenation is the concatenation of the joins. */
  lemma {:induction false} JoinAppend(xs: seq<string>, ys: seq<string>)
    ensures Join(xs + ys) == Join(xs) + Join(ys)
    decreases |ys|
  {
    if ys == [] {
      assert xs + ys == xs;
    } else {
      var init, last := ys[..|ys| - 1], ys[|ys| - 1];
      assert (xs + ys)[..|xs + ys| - 1] == xs + init;
      JoinAppend(xs, init);
    }
  }

  /** The generator over a concatenation of line lists yields the two yields in order. */
  lemma {:induction false} CleanedAppend(xs: seq<string>, ys: seq<string>)
    ensures Cleaned(xs + ys) == Cleaned(xs) + Cleaned(ys)
    decreases |ys|
  {
    if ys == [] {
      assert xs + ys == xs;
    } else {
      var init, last := ys[..|ys| - 1], ys[|ys| - 1];
      assert (xs + ys)[..|xs + ys| - 1] == xs + init;
      CleanedAppend(xs, init);
    }
  }

  /** A single line yields its cleaned text, or nothing if it is a header. */
  lemma {:induction false} CleanedSingle(line: string)
    ensures Cleaned([line]) == if IsHeader(line) then [] else [CleanLine(line)]
  {
    assert [line][..0] == [];
  }

  /** The parse of a concatenation of line lists is the concatenation of the parses. */
  lemma {:induction false} ParseFastaAppend(xs: seq<string>, ys: seq<string>)
    ensures ParseFasta(xs + ys) == ParseFasta(xs) + ParseFasta(ys)
  {
    CleanedAppend(xs, ys);
    JoinAppend(Cleaned(xs), Cleaned(ys));
  }

  /** A single line contributes its cleaned text, or nothing if it is a header. */
  lemma {:induction false} ParseFastaLine(line: string)
    ensures ParseFasta([line]) == if IsHeader(line) then [] else CleanLine(line)
  {
    CleanedSingle(line);
    if !IsHeader(line) {
      var parts := [CleanLine(line)];
      assert parts[..0] == [];
      assert Join(parts) == Join([]) + CleanLine(line);
    }
  }

  /** Header lines contribute nothing, wherever they are. */
  lemma {:induction false} HeadersIgnored(xs: seq<string>, header: string, ys: seq<string>)
    requires IsHeader(header)
    ensures ParseFasta(xs + [header] + ys) == ParseFasta(xs + ys)
  {
    ParseFastaAppend(xs + [header], ys);
    ParseFastaAppend(xs, [header]);
    ParseFastaLine(header);
    ParseFastaAppend(xs, ys);
  }

  /** Every part the generator yields is a cleaned non-header line. */
  lemma {:induction false} CleanedParts(lines: seq<string>)
    ensures forall k :: 0 <= k < |Cleaned(lines)| ==>
      exists l :: 0 <= l < |lines| && !IsHeader(lines[l]) && Cleaned(lines)[k] == CleanLine(lines[l])
  {
    if lines != [] {
      var init, last := lines[..|lines| - 1], lines[|lines| - 1];
      CleanedParts(init);
      var c := Cleaned(lines);
      forall k | 0 <= k < |Cleaned(lines)|
        ensures exists l :: 0 <= l < |lines| && !IsHeader(lines[l]) && Cleaned(lines)[k] == CleanLine(lines[l])
      {
        if k < |Cleaned(init)| {
          var l :| 0 <= l < |init| && !IsHeader(init[l]) && Cleaned(init)[k] == CleanLine(init[l]);
          assert c == Cleaned(init) + (if IsHeader(last) then [] else [CleanLine(last)]);
          assert c[k] == Cleaned(init)[k] && lines[l] == init[l];
        } else {
          assert !IsHeader(last) && c == Cleaned(init) + [CleanLine(last)];
          assert c[k] == CleanLine(lines[|lines| - 1]);
          assert 0 <= |lines| - 1 < |lines| && !IsHeader(lines[|lines| - 1]);
        }
      }
    } else {
      assert |Cleaned(lines)| == 0;
    }
  }

  /** A character of a join comes from one of its parts. */
  lemma {:induction false} JoinMember(parts: seq<string>, ch: char)
    requires ch in Join(parts)
    ensures exists k :: 0 <= k < |parts| && ch in parts[k]
  {
    if parts != [] {
      var init, last := parts[..|parts| - 1], parts[|parts| - 1];
      if ch in Join(init) {
        JoinMember(init, ch);
        var k :| 0 <= k < |init| && ch in init[k];
        assert parts[k] == init[k];
      } else {
        assert ch in last;
      }
    }
  }

  /** The parsed sequence has no lower-case ASCII letter. */
  lemma {:induction false} ParsedIsUpper(lines: seq<string>)
    ensures forall ch :: ch in ParseFasta(lines) ==> !IsLower(ch)
  {
    forall ch | ch in ParseFasta(lines)
      ensures !IsLower(ch)
    {
      var l := PartOrigin(lines, ch);
      UpperMeaning(Strip(lines[l]));
    }
  }

  /** If line breaks only end lines, as `readlines()` returns them, the parsed sequence
    * holds no line break. */
  lemma {:induction false} ParsedHasNoNewline(lines: seq<string>)
    requires forall l, j :: 0 <= l < |lines| && 0 <= j < |lines[l]| - 1 ==> lines[l][j] != '\n'
    ensures '\n' !in ParseFasta(lines)
  {
    if '\n' in ParseFasta(lines) {
      var l := PartOrigin(lines, '\n');
      LineHasNoNewline(lines[l]);
      assert false;
    }
  }

  /** Every character of the parse comes from the cleaned text of a non-header line. */
  lemma {:induction false} PartOrigin(lines: seq<string>, ch: char) returns (l: nat)
    requires ch in ParseFasta(lines)
    ensures l < |lines| && !IsHeader(lines[l]) && ch in CleanLine(lines[l])
  {
    JoinMember(Cleaned(lines), ch);
    var k :| 0 <= k < |Cleaned(lines)| && ch in Cleaned(lines)[k];
    CleanedParts(lines);
    l :| 0 <= l < |lines| && !IsHeader(lines[l]) && Cleaned(lines)[k] == CleanLine(lines[l]);
  }

  /** A cleaned line holds no line break if its only one can be its last character. */
  lemma {:induction false} LineHasNoNewline(line: string)
    requires forall j :: 0 <= j < |line| - 1 ==> line[j] != '\n'
    ensures '\n' !in CleanLine(line)
  {
    var a, b := StripMeaning(line);
    var t := Strip(line);
    UpperPointwise(t);
    forall i | 0 <= i < |t|
      ensures Upper(t)[i] != '\n'
    {
      assert t[i] == line[a + i];
      if a + i == |line| - 1 {
        assert !IsSpace(line[b - 1]);
      }
    }
  }
}
