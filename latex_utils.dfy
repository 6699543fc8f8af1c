/** The LaTeX string helpers of lib/plansheet/sheet/latex_utils.rb: fixed
    text around an argument or a block's body, and the escaping of
    underscores. A block's result (`yield`) is the `body` parameter. */
module LatexMixins {

  /** `HARD_NL`: a space, the line break command `\\` and a newline. */
  const HardNl: string := " \\\\\n"

  /** `vspace(space)`. */
  function Vspace(space: string): (r: string)
    ensures |r| == |space| + 10
    ensures r[..8] == "\\vspace{" && r[8..|r| - 2] == space && r[|r| - 2..] == "}\n"
  {
    "\\vspace{" + space + "}\n"
  }

  /** `writein_line(space)`: an underlined blank of the given width. */
  function WriteinLine(space: string): (r: string)
    ensures |r| == |space| + 23
    ensures r[..20] == "$\\underline{\\hspace{" && r[20..|r| - 3] == space && r[|r| - 3..] == "}}$"
  {
    "$\\underline{\\hspace{" + space + "}}$"
  }

  /** `checkbox_item(str)`: a box, a space, then the text. */
  function CheckboxItem(str: string): (r: string)
    ensures |r| == |str| + 10
    ensures r[..10] == "$\\square$ " && r[10..] == str
  {
    "$\\square$ " + str
  }

  /** `vbox { body }`. */
  function Vbox(body: string): (r: string)
    ensures |r| == |body| + 10
    ensures r[..7] == "\\vbox{\n" && r[7..|r| - 3] == body && r[|r| - 3..] == "\n}\n"
  {
    "\\vbox{\n" + body + "\n}\n"
  }

  /** `document { body }`. */
  function Document(body: string): (r: string)
    ensures |r| == |body| + 33
    ensures r[..17] == "\\begin{document}\n" && r[17..|r| - 16] == body && r[|r| - 16..] == "\n\\end{document}\n"
  {
    "\\begin{document}\n" + body + "\n\\end{document}\n"
  }

  /** `minipage(size) { body }`. */
  function Minipage(size: string, body: string): (r: string)
    ensures |r| == |size| + |body| + 35
    ensures r[..17] == "\\begin{minipage}{" && r[17..|size| + 17] == size && r[|size| + 17..|size| + 19] == "}\n"
    ensures r[|size| + 19..|r| - 16] == body && r[|r| - 16..] == "\n\\end{minipage}\n"
  {
    "\\begin{minipage}{" + size + "}\n" + body + "\n\\end{minipage}\n"
  }

  /** The wrappers lose nothing: equal output means equal body. */
  lemma WrappersInjective(size: string, b1: string, b2: string)
    ensures Vbox(b1) == Vbox(b2) ==> b1 == b2
    ensures Document(b1) == Document(b2) ==> b1 == b2
    ensures Minipage(size, b1) == Minipage(size, b2) ==> b1 == b2
    ensures CheckboxItem(b1) == CheckboxItem(b2) ==> b1 == b2
    ensures Vspace(b1) == Vspace(b2) ==> b1 == b2
    ensures WriteinLine(b1) == WriteinLine(b2) ==> b1 == b2
  {
  }

  // ----- sanitize_string -----

  /** How often `c` occurs in `s`. */
  function Count(s: string, c: char): nat {
    if s == [] then 0 else (if s[0] == c then 1 else 0) + Count(s[1..], c)
  }

  /** `sanitize_string(str)`: every "_" becomes "\_". */
  function Sanitize(str: string): (r: string)
    ensures |r| == |str| + Count(str, '_')
    ensures '_' !in str ==> r == str
    decreases |str|
  {
    if str == [] then []
    else (if str[0] == '_' then "\\_" else [str[0]]) + Sanitize(str[1..])
  }

  /** Each character on its own: an underscore is escaped, every other
      character is kept. */
  lemma SanitizeChar(c: char)
    ensures Sanitize([c]) == if c == '_' then "\\_" else [c]
  {
    assert [c][1..] == [];
  }

  /** Escaping works character by character: it distributes over
      concatenation. */
  lemma {:induction false} SanitizeConcat(a: string, b: string)
    ensures Sanitize(a + b) == Sanitize(a) + Sanitize(b)
    decreases |a|
  {
    if a == [] {
      assert a + b == b;
    } else {
      assert (a + b)[1..] == a[1..] + b;
      SanitizeConcat(a[1..], b);
    }
  }

  /** Every underscore of the result is escaped by the backslash before
      it. */
  lemma {:induction false} SanitizeEscapes(str: string)
    ensures forall i :: 0 <= i < |Sanitize(str)| && Sanitize(str)[i] == '_' ==> i > 0 && Sanitize(str)[i - 1] == '\\'
    decreases |str|
  {
    if str != [] {
      SanitizeEscapes(str[1..]);
      var head := if str[0] == '_' then "\\_" else [str[0]];
      var rest := Sanitize(str[1..]);
      assert Sanitize(str) == head + rest;
      forall i | 0 <= i < |head + rest| && (head + rest)[i] == '_'
        ensures i > 0 && (head + rest)[i - 1] == '\\'
      {
        if i >= |head| {
          assert (head + rest)[i] == rest[i - |head|];
          if i > |head| {
            assert (head + rest)[i - 1] == rest[i - 1 - |head|];
          }
        }
      }
    }
  }

  /** An escaped string never starts with an underscore. */
  lemma FirstNotUnderscore(str: string)
    ensures Sanitize(str) == [] || Sanitize(str)[0] != '_'
  {
  }

  /** Undo the escaping: "\_" back to "_". */
  function Unsanitize(t: string): string
    decreases |t|
  {
    if |t| >= 2 && t[0] == '\\' && t[1] == '_' then "_" + Unsanitize(t[2..])
    else if t == [] then []
    else [t[0]] + Unsanitize(t[1..])
  }

  /** The escaping is undone exactly: no two strings sanitize alike. */
  lemma {:induction false} UnsanitizeSanitize(str: string)
    ensures Unsanitize(Sanitize(str)) == str
    decreases |str|
  {
    if str != [] {
      UnsanitizeSanitize(str[1..]);
      var rest := Sanitize(str[1..]);
      FirstNotUnderscore(str[1..]);
      if str[0] == '_' {
        var t := "\\_" + rest;
        assert t[2..] == rest;
      } else {
        var t := [str[0]] + rest;
        assert t[1..] == rest;
        assert !(|t| >= 2 && t[0] == '\\' && t[1] == '_');
      }
      assert str == [str[0]] + str[1..];
    }
  }
}
