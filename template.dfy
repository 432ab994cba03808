/** The LaTeX document of getformula.py and Python's %-formatting that fills it
    from the parsed arguments (content % args.__dict__). */
module Template {
  import opened Wrappers

  /** The ways Python's %-formatting with a mapping fails on this model's
      subset of the directive language. */
  datatype FormatError =
    | IncompleteFormat               // '%' or '%(key)' ends the template
    | IncompleteFormatKey            // '%(' has no closing ')'
    | MissingKey(key: string)        // KeyError: the mapping lacks the key
    | UnsupportedDirective(c: char)  // a directive outside '%%' and '%(key)s'

  /** Puts prefix in front of a successful result; an error passes through. */
  function Prepend(prefix: string, r: Result<string, FormatError>): Result<string, FormatError> {
    match r
    case Success(s) => Success(prefix + s)
    case Failure(e) => Failure(e)
  }

  /** The index of the first ')' in t at or after i, or |t| when there is none. */
  function KeyEnd(t: string, i: nat): (j: nat)
    requires i <= |t|
    ensures i <= j <= |t|
    ensures j < |t| ==> t[j] == ')'
    ensures forall k | i <= k < j :: t[k] != ')'
    decreases |t| - i
  {
    if i == |t| || t[i] == ')' then i else KeyEnd(t, i + 1)
  }

  /** Python's `template % args` for a mapping args: '%%' becomes '%',
      '%(key)s' becomes args[key] verbatim, everything else is copied; the
      first malformed directive or missing key, left to right, is the error. */
  function Format(t: string, args: map<string, string>): (r: Result<string, FormatError>)
    ensures r.Failure? ==> '%' in t
    ensures r.Failure? && r.error.MissingKey? ==> r.error.key !in args
    decreases |t|
  {
    if t == [] then Success([])
    else if t[0] != '%' then
      assert t == [t[0]] + t[1..];
      Prepend([t[0]], Format(t[1..], args))
    else if |t| == 1 then Failure(IncompleteFormat)
    else if t[1] == '%' then Prepend("%", Format(t[2..], args))
    else if t[1] != '(' then Failure(UnsupportedDirective(t[1]))
    else
      var close := KeyEnd(t, 2);
      if close == |t| then Failure(IncompleteFormatKey)
      else
        var key := t[2..close];
        if key !in args then Failure(MissingKey(key))
        else if close + 1 == |t| then Failure(IncompleteFormat)
        else if t[close + 1] != 's' then Failure(UnsupportedDirective(t[close + 1]))
        else Prepend(args[key], Format(t[close + 2..], args))
  }

  /** Text without '%' passes through formatting unchanged, ahead of whatever
      the rest of the template formats to. */
  lemma {:induction false} FormatPlainPrefix(a: string, b: string, args: map<string, string>)
    requires '%' !in a
    ensures Format(a + b, args) == Prepend(a, Format(b, args))
    decreases |a|
  {
    if a == [] {
      assert a + b == b;
      match Format(b, args)
      case Success(s) =>
        assert a + s == s;
      case Failure(_) =>
    } else {
      assert a[0] in a;
      assert (a + b)[0] == a[0];
      assert (a + b)[1..] == a[1..] + b;
      assert '%' !in a[1..] by {
        forall c | c in a[1..] ensures c in a {}
      }
      assert Format(a + b, args) == Prepend([a[0]], Format(a[1..] + b, args));
      FormatPlainPrefix(a[1..], b, args);
      match Format(b, args)
      case Success(s) =>
        assert [a[0]] + (a[1..] + s) == a + s;
      case Failure(_) =>
    }
  }

  /** The keyed directive '%(key)s' is replaced by the mapping's value verbatim,
      or raises KeyError when the mapping lacks the key. */
  lemma FormatKeyed(key: string, rest: string, args: map<string, string>)
    requires ')' !in key && '(' !in key
    ensures Format("%(" + key + ")s" + rest, args) ==
      if key in args then Prepend(args[key], Format(rest, args)) else Failure(MissingKey(key))
  {
    var t := "%(" + key + ")s" + rest;
    var close := 2 + |key|;
    assert t[0] == '%' && t[1] == '(' && t[close] == ')' && t[close + 1] == 's';
    assert t[2..close] == key;
    assert t[close + 2..] == rest;
    assert KeyEnd(t, 2) == close by {
      assert forall k | 2 <= k < close :: t[k] == key[k - 2];
    }
  }

  /* The document template of getformula.py:18-38. Each source line is written
     as a few literals of at most 15 characters: the verifier can show that a
     short literal holds no '%', but not a whole line of 50 characters or more.
     Each part carries a lemma that it holds no '%', so the only directive of
     the whole template is its single '%(formula)s' placeholder. */

  const Preamble: string :=
    "\\documentclass" + "[x11names]" + "{report}\n"
    + "    \\usepackage" + "{background}\n"
    + "    " + "\\definecolor" + "{lightkhaki}" + "{rgb}{0.94, " + "0.9, 0.55}\n"

  lemma PreamblePlain()
    ensures '%' !in Preamble
  {
    assert '%' !in "\\documentclass";
    assert '%' !in "[x11names]";
    assert '%' !in "{report}\n";
    assert '%' !in "    \\usepackage";
    assert '%' !in "{background}\n";
    assert '%' !in "    ";
    assert '%' !in "\\definecolor";
    assert '%' !in "{lightkhaki}";
    assert '%' !in "{rgb}{0.94, ";
    assert '%' !in "0.9, 0.55}\n";
  }

  const PageSetup: string :=
    "    " + "\\thispagestyle" + "{empty}\n"
    + "    " + "\\renewcommand" + "\\fbox{" + "\\fcolorbox" + "{lightkhaki}" + "{lightkhaki}}\n"

  lemma PageSetupPlain()
    ensures '%' !in PageSetup
  {
    assert '%' !in "    ";
    assert '%' !in "\\thispagestyle";
    assert '%' !in "{empty}\n";
    assert '%' !in "\\renewcommand";
    assert '%' !in "\\fbox{";
    assert '%' !in "\\fcolorbox";
    assert '%' !in "{lightkhaki}";
    assert '%' !in "{lightkhaki}}\n";
  }

  const BackgroundOpen: string :=
    "    " + "\\background" + "setup{\n"
    + "        scale=" + "1,\n"
    + "        angle=" + "0,\n"
    + "        " + "opacity=1,\n"
    + "        " + "contents={" + "\\begin" + "{tikzpicture}" + "[remember " + "picture," + "overlay]\n"

  lemma BackgroundOpenPlain()
    ensures '%' !in BackgroundOpen
  {
    assert '%' !in "    ";
    assert '%' !in "\\background";
    assert '%' !in "setup{\n";
    assert '%' !in "        scale=";
    assert '%' !in "1,\n";
    assert '%' !in "        angle=";
    assert '%' !in "0,\n";
    assert '%' !in "        ";
    assert '%' !in "opacity=1,\n";
    assert '%' !in "contents={";
    assert '%' !in "\\begin";
    assert '%' !in "{tikzpicture}";
    assert '%' !in "[remember ";
    assert '%' !in "picture,";
    assert '%' !in "overlay]\n";
  }

  const BackgroundPath: string :=
    "        " + "        " + "\\path [left " + "color = " + "lightkhaki,"
    + "middle color = " + "lightkhaki, " + "right color = " + "lightkhaki] "
    + "(current " + "page.south " + "west)rectangle " + "(current " + "page.north " + "east);\n"

  lemma BackgroundPathPlain()
    ensures '%' !in BackgroundPath
  {
    assert '%' !in "        ";
    assert '%' !in "\\path [left ";
    assert '%' !in "color = ";
    assert '%' !in "lightkhaki,";
    assert '%' !in "middle color = ";
    assert '%' !in "lightkhaki, ";
    assert '%' !in "right color = ";
    assert '%' !in "lightkhaki] ";
    assert '%' !in "(current ";
    assert '%' !in "page.south ";
    assert '%' !in "west)rectangle ";
    assert '%' !in "page.north ";
    assert '%' !in "east);\n";
  }

  const BackgroundClose: string :=
    "        \\end" + "{tikzpicture}}\n"
    + "    }\n"

  lemma BackgroundClosePlain()
    ensures '%' !in BackgroundClose
  {
    assert '%' !in "        \\end";
    assert '%' !in "{tikzpicture}}\n";
    assert '%' !in "    }\n";
  }

  const BodyOpen: string :=
    "    \\begin" + "{document}\n"
    + "        " + "\\centering\n"
    + "        " + "\\setlength{" + "\\fboxsep}{2em}\n"
    + "        \\fbox{\n"
    + "            $" + "\\displaystyle "

  lemma BodyOpenPlain()
    ensures '%' !in BodyOpen
  {
    assert '%' !in "    \\begin";
    assert '%' !in "{document}\n";
    assert '%' !in "        ";
    assert '%' !in "\\centering\n";
    assert '%' !in "\\setlength{";
    assert '%' !in "\\fboxsep}{2em}\n";
    assert '%' !in "        \\fbox{\n";
    assert '%' !in "            $";
    assert '%' !in "\\displaystyle ";
  }

  const Closing: string :=
    "$\n        }" + "\t\n    \\end" + "{document}\n    "

  lemma ClosingPlain()
    ensures '%' !in Closing
  {
    assert '%' !in "$\n        }";
    assert '%' !in "\t\n    \\end";
    assert '%' !in "{document}\n    ";
  }

  const Placeholder: string := "%(" + "formula" + ")s"

  /** The text before the placeholder: preamble, page background and the
      opening of the framed display-math formula. */
  const Head: string :=
    Preamble + PageSetup + BackgroundOpen + BackgroundPath + BackgroundClose + BodyOpen

  const Template: string := Head + Placeholder + Closing

  lemma HeadPlain()
    ensures '%' !in Head
  {
    PreamblePlain();
    PageSetupPlain();
    BackgroundOpenPlain();
    BackgroundPathPlain();
    BackgroundClosePlain();
    BodyOpenPlain();
  }

  /** A template with a single keyed directive and no other '%': the value
      replaces the directive verbatim, or the key is missing. */
  lemma FormatSingleKey(head: string, key: string, tail: string, args: map<string, string>)
    requires '%' !in head && '%' !in tail && ')' !in key && '(' !in key
    ensures Format(head + ("%(" + key + ")s") + tail, args) ==
      if key in args then Success(head + args[key] + tail) else Failure(MissingKey(key))
  {
    var directive := "%(" + key + ")s";
    assert head + directive + tail == head + (directive + tail);
    FormatPlainPrefix(head, directive + tail, args);
    FormatKeyed(key, tail, args);
    FormatPlainPrefix(tail, [], args);
    assert tail + [] == tail;
    if key in args {
      assert head + (args[key] + tail) == head + args[key] + tail;
    }
  }

  /** Filling the template with a mapping: when the mapping has a "formula"
      entry its value replaces the placeholder verbatim and no other text of
      the template changes; otherwise formatting raises KeyError('formula'). */
  lemma TemplateFill(args: map<string, string>)
    ensures Format(Template, args) ==
      if "formula" in args then Success(Head + args["formula"] + Closing)
      else Failure(MissingKey("formula"))
  {
    HeadPlain();
    ClosingPlain();
    FormatSingleKey(Head, "formula", Closing, args);
  }

  /** The document written to formula.tex for a formula: the parsed arguments
      map "formula" to the formula text, which lands unescaped between the
      fixed head and closing of the template. */
  function RenderDocument(formula: string): (r: Result<string, FormatError>)
    ensures r == Success(Head + formula + Closing)
  {
    TemplateFill(map["formula" := formula]);
    Format(Template, map["formula" := formula])
  }

  /** Different formulas give different documents: the formula can be read back
      at offset |Head| of the rendered text. */
  lemma RenderDocumentInjective(f1: string, f2: string)
    ensures f1 != f2 ==> RenderDocument(f1) != RenderDocument(f2)
  {
    var d1, d2 := Head + f1 + Closing, Head + f2 + Closing;
    if d1 == d2 {
      assert |f1| == |d1| - |Head| - |Closing| == |f2|;
      assert d1[|Head|..|Head| + |f1|] == f1;
      assert d2[|Head|..|Head| + |f2|] == f2;
    }
  }
}
