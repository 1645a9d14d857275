/** The name and input helpers of the scaffolder (src/utils.js): the kebab
    and snake spellings of a project name, and the validation of a project
    name and of a dev-server port. */
module Utils {
  import opened Text

  /** What the validators return: `true`, or the message of the check that failed. */
  datatype Validation = Valid | Invalid(message: string)

  // ---------------------------------------------------------------------
  // toKebabCase and toSnakeCase
  // ---------------------------------------------------------------------

  /** The two spellings derived from a project name. */
  datatype Style = Kebab | Snake {
    /** The delimiter written at case boundaries and for separator runs. */
    function Delimiter(): char {
      if Kebab? then '-' else '_'
    }

    /** The separator that, besides white space, forms the runs folded into
        one delimiter: `_` in `[\s_]+` for kebab, `-` in `[\s-]+` for snake. */
    function Separator(): char {
      if Kebab? then '_' else '-'
    }
  }

  /** A character of the class `[\s_]` (kebab) or `[\s-]` (snake). */
  predicate IsRunChar(c: char, style: Style) {
    IsSpace(c) || c == style.Separator()
  }

  /** Index `i` starts a match of `([a-z])([A-Z])`. */
  predicate IsBoundary(s: string, i: int) {
    0 <= i < |s| - 1 && IsLower(s[i]) && IsUpper(s[i + 1])
  }

  /** `s.replace(/([a-z])([A-Z])/g, "$1" + d + "$2")`: a global regular
      expression scan, which resumes after each two-character match. */
  function SplitCamel(s: string, d: char): (r: string)
    ensures |s| <= |r| && forall c :: c in r ==> c == d || c in s
    decreases |s|
  {
    if |s| < 2 then s
    else if IsBoundary(s, 0) then [s[0], d, s[1]] + SplitCamel(s[2..], d)
    else [s[0]] + SplitCamel(s[1..], d)
  }

  /** Reference reading of the first rewrite: every character of `s` in order,
      with `d` right after each one that is a lowercase letter followed by an
      uppercase one. */
  function InsertAtBoundaries(s: string, d: char): string
    decreases |s|
  {
    if s == [] then []
    else (if IsBoundary(s, 0) then [s[0], d] else [s[0]]) + InsertAtBoundaries(s[1..], d)
  }

  /** Because a match ends on an uppercase letter, which cannot start the next
      match, the scan misses no boundary and inserts nothing elsewhere. */
  lemma {:induction false} SplitCamelInsertsAtEveryBoundary(s: string, d: char)
    ensures SplitCamel(s, d) == InsertAtBoundaries(s, d)
    decreases |s|
  {
    if |s| < 2 {
      if |s| == 1 {
        assert InsertAtBoundaries(s, d) == [s[0]] + InsertAtBoundaries(s[1..], d);
      }
    } else if IsBoundary(s, 0) {
      var t := s[1..];
      assert !IsBoundary(t, 0);
      SplitCamelInsertsAtEveryBoundary(s[2..], d);
      assert t[1..] == s[2..];
      assert InsertAtBoundaries(t, d) == [s[1]] + InsertAtBoundaries(s[2..], d);
    } else {
      SplitCamelInsertsAtEveryBoundary(s[1..], d);
    }
  }

  /** Without a lowercase-uppercase pair the first rewrite changes nothing. */
  lemma {:induction false} SplitCamelWithoutBoundary(s: string, d: char)
    requires forall i :: !IsBoundary(s, i)
    ensures SplitCamel(s, d) == s
    decreases |s|
  {
    if |s| >= 2 {
      assert !IsBoundary(s, 0);
      forall i ensures !IsBoundary(s[1..], i) {
        assert IsBoundary(s[1..], i) ==> IsBoundary(s, i + 1);
      }
      SplitCamelWithoutBoundary(s[1..], d);
    }
  }

  /** Leading characters of the run class, dropped. */
  function DropRun(s: string, style: Style): (r: string)
    ensures |r| <= |s| && r == s[|s| - |r|..]
    ensures s != [] && IsRunChar(s[0], style) ==> |r| < |s|
    decreases |s|
  {
    if s != [] && IsRunChar(s[0], style) then DropRun(s[1..], style) else s
  }

  /** `.replace(/[\s_]+/g, "-")` (kebab) or `.replace(/[\s-]+/g, "_")`
      (snake): each maximal run of the class becomes one delimiter. */
  function CollapseRuns(s: string, style: Style): (r: string)
    ensures |r| <= |s| && forall c :: c in r ==> c == style.Delimiter() || c in s
    decreases |s|
  {
    if s == [] then []
    else if IsRunChar(s[0], style) then [style.Delimiter()] + CollapseRuns(DropRun(s, style), style)
    else [s[0]] + CollapseRuns(s[1..], style)
  }

  /** After the second rewrite no character of the run class is left. */
  lemma {:induction false} CollapseRunsLeavesNoRunChar(s: string, style: Style)
    ensures forall i :: 0 <= i < |CollapseRuns(s, style)| ==> !IsRunChar(CollapseRuns(s, style)[i], style)
    decreases |s|
  {
    if s != [] {
      if IsRunChar(s[0], style) {
        CollapseRunsLeavesNoRunChar(DropRun(s, style), style);
      } else {
        CollapseRunsLeavesNoRunChar(s[1..], style);
      }
    }
  }

  /** Text with no character of the run class passes the second rewrite
      unchanged: in kebab, runs of `-` are kept as they are. */
  lemma {:induction false} CollapseRunsWithoutRunChar(s: string, style: Style)
    requires forall i :: 0 <= i < |s| ==> !IsRunChar(s[i], style)
    ensures CollapseRuns(s, style) == s
    decreases |s|
  {
    if s != [] {
      CollapseRunsWithoutRunChar(s[1..], style);
    }
  }

  /** No uppercase letter, no white space and no separator of the run class. */
  predicate Normalized(s: string, style: Style) {
    forall i :: 0 <= i < |s| ==> !IsUpper(s[i]) && !IsRunChar(s[i], style)
  }

  /** Lowercasing text without a run character normalizes it. */
  lemma LowerOfRunFree(c: string, style: Style)
    requires forall i :: 0 <= i < |c| ==> !IsRunChar(c[i], style)
    ensures Normalized(Lower(c), style)
  {
    forall i | 0 <= i < |c| ensures !IsRunChar(Lower(c)[i], style) {
      assert Lower(c)[i] == ToLower(c[i]);
    }
  }

  /** The whole chain: both rewrites, then `toLowerCase`. The result has no
      uppercase letter and no character of the run class. */
  function Convert(s: string, style: Style): (r: string)
    ensures Normalized(r, style)
  {
    var split := SplitCamel(s, style.Delimiter());
    CollapseRunsLeavesNoRunChar(split, style);
    LowerOfRunFree(CollapseRuns(split, style), style);
    Lower(CollapseRuns(split, style))
  }

  /** Normalized text is a fixed point of the chain. */
  lemma NormalizedIsFixed(s: string, style: Style)
    requires Normalized(s, style)
    ensures Convert(s, style) == s
  {
    SplitCamelWithoutBoundary(s, style.Delimiter());
    CollapseRunsWithoutRunChar(s, style);
    LowerFixesExactlyUppercaseFree(s);
  }

  /** `toKebabCase(str)`: no uppercase letter, white space or `_` in the result. */
  function ToKebabCase(s: string): (r: string)
    ensures forall i :: 0 <= i < |r| ==> !IsUpper(r[i]) && !IsSpace(r[i]) && r[i] != '_'
  {
    Convert(s, Kebab)
  }

  /** `toSnakeCase(str)`: no uppercase letter, white space or `-` in the result. */
  function ToSnakeCase(s: string): (r: string)
    ensures forall i :: 0 <= i < |r| ==> !IsUpper(r[i]) && !IsSpace(r[i]) && r[i] != '-'
  {
    Convert(s, Snake)
  }

  lemma KebabIdempotent(s: string)
    ensures ToKebabCase(ToKebabCase(s)) == ToKebabCase(s)
  {
    NormalizedIsFixed(ToKebabCase(s), Kebab);
  }

  lemma SnakeIdempotent(s: string)
    ensures ToSnakeCase(ToSnakeCase(s)) == ToSnakeCase(s)
  {
    NormalizedIsFixed(ToSnakeCase(s), Snake);
  }

  /** The first rewrite works on the two sides of a character that is not
      an uppercase letter separately: no match spans it. */
  lemma {:induction false} SplitCamelAppend(a: string, x: string, d: char)
    requires x == [] || !IsUpper(x[0])
    ensures SplitCamel(a + x, d) == SplitCamel(a, d) + SplitCamel(x, d)
    decreases |a|
  {
    var ax := a + x;
    var sx := SplitCamel(x, d);
    if a == [] {
      assert ax == x;
    } else if x == [] {
      assert ax == a;
    } else if |a| == 1 {
      assert !IsBoundary(ax, 0) && ax[1..] == x;
      assert SplitCamel(ax, d) == [a[0]] + sx;
    } else if IsBoundary(a, 0) {
      var head := [a[0], d, a[1]];
      assert IsBoundary(ax, 0) && ax[2..] == a[2..] + x;
      SplitCamelAppend(a[2..], x, d);
      assert SplitCamel(ax, d) == head + (SplitCamel(a[2..], d) + sx);
      AppendAssoc(head, SplitCamel(a[2..], d), sx);
    } else {
      assert !IsBoundary(ax, 0) && ax[1..] == a[1..] + x;
      SplitCamelAppend(a[1..], x, d);
      assert SplitCamel(ax, d) == [a[0]] + (SplitCamel(a[1..], d) + sx);
      AppendAssoc([a[0]], SplitCamel(a[1..], d), sx);
    }
  }

  /** Dropping a run stops at a character outside the run class. */
  lemma {:induction false} DropRunAppend(a: string, x: string, style: Style)
    requires x == [] || !IsRunChar(x[0], style)
    ensures DropRun(a + x, style) == DropRun(a, style) + x
    decreases |a|
  {
    if a == [] {
      assert a + x == x;
    } else if IsRunChar(a[0], style) {
      calc {
        DropRun(a + x, style);
      == { assert (a + x)[0] == a[0]; }
        DropRun((a + x)[1..], style);
      == { assert (a + x)[1..] == a[1..] + x; }
        DropRun(a[1..] + x, style);
      == { DropRunAppend(a[1..], x, style); }
        DropRun(a[1..], style) + x;
      }
    } else {
      assert (a + x)[0] == a[0];
    }
  }

  /** The second rewrite works on the two sides of a character outside the
      run class separately: no run spans it. */
  lemma {:induction false} CollapseRunsAppend(a: string, x: string, style: Style)
    requires x == [] || !IsRunChar(x[0], style)
    ensures CollapseRuns(a + x, style) == CollapseRuns(a, style) + CollapseRuns(x, style)
    decreases |a|
  {
    var cx := CollapseRuns(x, style);
    if a == [] {
      assert a + x == x;
    } else if IsRunChar(a[0], style) {
      var rest := DropRun(a, style);
      calc {
        CollapseRuns(a + x, style);
      == { assert (a + x)[0] == a[0]; }
        [style.Delimiter()] + CollapseRuns(DropRun(a + x, style), style);
      == { DropRunAppend(a, x, style); }
        [style.Delimiter()] + CollapseRuns(rest + x, style);
      == { CollapseRunsAppend(rest, x, style); }
        [style.Delimiter()] + (CollapseRuns(rest, style) + cx);
      == { AppendAssoc([style.Delimiter()], CollapseRuns(rest, style), cx); }
        CollapseRuns(a, style) + cx;
      }
    } else {
      calc {
        CollapseRuns(a + x, style);
      == { assert (a + x)[0] == a[0] && (a + x)[1..] == a[1..] + x; }
        [a[0]] + CollapseRuns(a[1..] + x, style);
      == { CollapseRunsAppend(a[1..], x, style); }
        [a[0]] + (CollapseRuns(a[1..], style) + cx);
      == { AppendAssoc([a[0]], CollapseRuns(a[1..], style), cx); }
        CollapseRuns(a, style) + cx;
      }
    }
  }

  /** Every delimiter already in the text is kept and splits the chain:
      what lies on either side of it is converted on its own. */
  lemma ConvertSplitsAtDelimiter(a: string, b: string, style: Style)
    ensures Convert(a + [style.Delimiter()] + b, style) ==
            Convert(a, style) + [style.Delimiter()] + Convert(b, style)
  {
    var d := style.Delimiter();
    NotRunChar(d, style);
    SplitCamelAppend(a, [d] + b, d);
    assert ([d] + b)[1..] == b;
    assert SplitCamel([d] + b, d) == [d] + SplitCamel(b, d);
    assert a + [d] + b == a + ([d] + b);
    var sa, sb := SplitCamel(a, d), SplitCamel(b, d);
    CollapseRunsAppend(sa, [d] + sb, style);
    assert ([d] + sb)[1..] == sb;
    assert CollapseRuns([d] + sb, style) == [d] + CollapseRuns(sb, style);
    AppendAssoc(sa, [d], sb);
    var ca, cb := CollapseRuns(sa, style), CollapseRuns(sb, style);
    LowerConcat(ca, [d] + cb);
    LowerConcat([d], cb);
    assert Lower([d]) == [d];
  }

  /** `toKebabCase` keeps every `-` of its input where it is, on any input:
      the text on each side is converted on its own, so `--` stays `--`. */
  lemma KebabKeepsHyphens(a: string, b: string)
    ensures ToKebabCase(a + "-" + b) == ToKebabCase(a) + "-" + ToKebabCase(b)
  {
    ConvertSplitsAtDelimiter(a, b, Kebab);
  }

  /** So a run of hyphens is not folded: `--` in the name stays `--`. */
  lemma KebabKeepsDoubleHyphen(a: string, b: string)
    ensures ToKebabCase(a + "--" + b) == ToKebabCase(a) + "--" + ToKebabCase(b)
  {
    assert a + "--" + b == a + "-" + ("-" + b);
    assert "-" + b == [] + "-" + b;
    KebabKeepsHyphens(a, "-" + b);
    KebabKeepsHyphens([], b);
    assert ToKebabCase([]) == [];
  }

  /** The same for `toSnakeCase` and `_`. */
  lemma SnakeKeepsUnderscores(a: string, b: string)
    ensures ToSnakeCase(a + "_" + b) == ToSnakeCase(a) + "_" + ToSnakeCase(b)
  {
    ConvertSplitsAtDelimiter(a, b, Snake);
  }

  /** A name with no case boundary, white space or `_` is only lowercased by
      `toKebabCase`. */
  lemma KebabOnlyLowercases(s: string)
    requires forall i :: !IsBoundary(s, i)
    requires forall i :: 0 <= i < |s| ==> !IsSpace(s[i]) && s[i] != '_'
    ensures ToKebabCase(s) == Lower(s)
  {
    SplitCamelWithoutBoundary(s, '-');
    CollapseRunsWithoutRunChar(s, Kebab);
  }

  /** The same for `toSnakeCase` and `-`. */
  lemma SnakeOnlyLowercases(s: string)
    requires forall i :: !IsBoundary(s, i)
    requires forall i :: 0 <= i < |s| ==> !IsSpace(s[i]) && s[i] != '-'
    ensures ToSnakeCase(s) == Lower(s)
  {
    SplitCamelWithoutBoundary(s, '_');
    CollapseRunsWithoutRunChar(s, Snake);
  }

  /** Letters, digits, `.` and the delimiter of a style never form a run. */
  lemma NotRunChar(c: char, style: Style)
    requires IsLower(c) || IsUpper(c) || IsDigit(c) || c == '.' || c == style.Delimiter()
    ensures !IsRunChar(c, style)
  {
  }

  /** The one boundary of "MyPlugin" is between `y` and `P`. */
  lemma SplitMyPlugin(d: char)
    ensures SplitCamel("MyPlugin", d) == ['M', 'y', d, 'P'] + "lugin"
  {
    SplitMyPluginTail(d);
    assert "MyPlugin"[1..] == "yPlugin";
    assert !IsBoundary("MyPlugin", 0);
  }

  lemma SplitMyPluginTail(d: char)
    ensures SplitCamel("yPlugin", d) == ['y', d, 'P'] + "lugin"
  {
    assert forall i :: !IsBoundary("lugin", i);
    SplitCamelWithoutBoundary("lugin", d);
    assert "yPlugin"[2..] == "lugin";
    assert IsBoundary("yPlugin", 0);
  }

  /** ASCII letters only. */
  predicate Letters(s: string) {
    forall i :: 0 <= i < |s| ==> IsLower(s[i]) || IsUpper(s[i])
  }

  /** Two words of letters around one delimiter pass the second rewrite
      unchanged. */
  lemma CollapseAroundDelimiter(a: string, b: string, style: Style)
    requires Letters(a) && Letters(b)
    ensures CollapseRuns(a + [style.Delimiter()] + b, style) == a + [style.Delimiter()] + b
  {
    var s := a + [style.Delimiter()] + b;
    forall i | 0 <= i < |s| ensures !IsRunChar(s[i], style) {
      if i < |a| {
        NotRunChar(a[i], style);
      } else if i > |a| {
        assert s[i] == b[i - |a| - 1];
        NotRunChar(b[i - |a| - 1], style);
      }
    }
    CollapseRunsWithoutRunChar(s, style);
  }

  lemma MyPluginLetters()
    ensures Letters("My") && Letters("Plugin")
  {
  }

  lemma CollapseMyPlugin(style: Style)
    ensures CollapseRuns("My" + [style.Delimiter()] + "Plugin", style) == "My" + [style.Delimiter()] + "Plugin"
  {
    MyPluginLetters();
    CollapseAroundDelimiter("My", "Plugin", style);
  }

  /** The documented example: "MyPlugin" becomes "my-plugin". */
  lemma KebabOfMyPlugin()
    ensures ToKebabCase("MyPlugin") == "my-plugin"
  {
    SplitMyPlugin('-');
    assert ['M', 'y', '-', 'P'] + "lugin" == "My" + "-" + "Plugin";
    CollapseMyPlugin(Kebab);
    LowerMyPluginKebab();
  }

  lemma LowerMyPluginKebab()
    ensures Lower("My" + "-" + "Plugin") == "my-plugin"
  {
    assert "My" + "-" + "Plugin" == "My-Plugin";
  }

  /** The documented example: "MyPlugin" becomes "my_plugin". */
  lemma SnakeOfMyPlugin()
    ensures ToSnakeCase("MyPlugin") == "my_plugin"
  {
    SplitMyPlugin('_');
    assert ['M', 'y', '_', 'P'] + "lugin" == "My" + "_" + "Plugin";
    CollapseMyPlugin(Snake);
    LowerMyPluginSnake();
  }

  lemma LowerMyPluginSnake()
    ensures Lower("My" + "_" + "Plugin") == "my_plugin"
  {
    assert "My" + "_" + "Plugin" == "My_Plugin";
  }

  /** Some character of `s` is a lowercase ASCII letter or a digit. */
  predicate HasLowerOrDigit(s: string) {
    exists i :: 0 <= i < |s| && (IsLower(s[i]) || IsDigit(s[i]))
  }

  /** Some character of `s` is an ASCII letter or digit. */
  predicate HasAlphanumeric(s: string) {
    exists i :: 0 <= i < |s| && (IsLower(s[i]) || IsUpper(s[i]) || IsDigit(s[i]))
  }

  lemma {:induction false} SplitCamelKeepsAlphanumeric(s: string, d: char)
    requires HasAlphanumeric(s)
    ensures HasAlphanumeric(SplitCamel(s, d))
    decreases |s|
  {
    var r := SplitCamel(s, d);
    if |s| >= 2 {
      var i :| 0 <= i < |s| && (IsLower(s[i]) || IsUpper(s[i]) || IsDigit(s[i]));
      if i == 0 {
        assert r[0] == s[0];
      } else if IsBoundary(s, 0) {
        if i == 1 {
          assert r[2] == s[1];
        } else {
          assert s[2..][i - 2] == s[i];
          SplitCamelKeepsAlphanumeric(s[2..], d);
          var j :| 0 <= j < |SplitCamel(s[2..], d)| && var c := SplitCamel(s[2..], d)[j]; IsLower(c) || IsUpper(c) || IsDigit(c);
          assert r[j + 3] == SplitCamel(s[2..], d)[j];
        }
      } else {
        assert s[1..][i - 1] == s[i];
        SplitCamelKeepsAlphanumeric(s[1..], d);
        var j :| 0 <= j < |SplitCamel(s[1..], d)| && var c := SplitCamel(s[1..], d)[j]; IsLower(c) || IsUpper(c) || IsDigit(c);
        assert r[j + 1] == SplitCamel(s[1..], d)[j];
      }
    }
  }

  /** A letter or digit is never inside the run a delimiter replaces. */
  lemma DropRunKeepsAlphanumeric(s: string, style: Style, i: nat)
    requires i < |s| && (IsLower(s[i]) || IsUpper(s[i]) || IsDigit(s[i]))
    ensures HasAlphanumeric(DropRun(s, style))
  {
    var rest := DropRun(s, style);
    var k := |s| - |rest|;
    DropRunDropsOnlyRunChars(s, style);
    NotRunChar(s[i], style);
    assert k <= i;
    assert rest[i - k] == s[i];
  }

  lemma {:induction false} CollapseRunsKeepsAlphanumeric(s: string, style: Style)
    requires HasAlphanumeric(s)
    ensures HasAlphanumeric(CollapseRuns(s, style))
    decreases |s|
  {
    var i :| 0 <= i < |s| && (IsLower(s[i]) || IsUpper(s[i]) || IsDigit(s[i]));
    var run := IsRunChar(s[0], style);
    var head := if run then [style.Delimiter()] else [s[0]];
    var rest := if run then DropRun(s, style) else s[1..];
    assert CollapseRuns(s, style) == head + CollapseRuns(rest, style);
    if !run && i == 0 {
      assert HasAlphanumeric(head) by { assert head[0] == s[0]; }
    } else {
      if run {
        DropRunKeepsAlphanumeric(s, style, i);
      } else {
        assert rest[i - 1] == s[i];
      }
      CollapseRunsKeepsAlphanumeric(rest, style);
    }
    AlphanumericInConcat(head, CollapseRuns(rest, style));
  }

  lemma AlphanumericInConcat(a: string, b: string)
    requires HasAlphanumeric(a) || HasAlphanumeric(b)
    ensures HasAlphanumeric(a + b)
  {
    if HasAlphanumeric(a) {
      var i :| 0 <= i < |a| && (IsLower(a[i]) || IsUpper(a[i]) || IsDigit(a[i]));
      assert (a + b)[i] == a[i];
    } else {
      var i :| 0 <= i < |b| && (IsLower(b[i]) || IsUpper(b[i]) || IsDigit(b[i]));
      assert (a + b)[|a| + i] == b[i];
    }
  }

  lemma {:induction false} DropRunDropsOnlyRunChars(s: string, style: Style)
    ensures forall m :: 0 <= m < |s| - |DropRun(s, style)| ==> IsRunChar(s[m], style)
    decreases |s|
  {
    if s != [] && IsRunChar(s[0], style) {
      DropRunDropsOnlyRunChars(s[1..], style);
      assert forall m :: 1 <= m < |s| - |DropRun(s, style)| ==> s[m] == s[1..][m - 1];
    }
  }

  /** A name holding a letter or digit gives a spelling holding a lowercase
      letter or digit. */
  lemma ConvertKeepsAlphanumeric(s: string, style: Style)
    requires HasAlphanumeric(s)
    ensures HasLowerOrDigit(Convert(s, style))
  {
    var split := SplitCamel(s, style.Delimiter());
    SplitCamelKeepsAlphanumeric(s, style.Delimiter());
    CollapseRunsKeepsAlphanumeric(split, style);
    var c := CollapseRuns(split, style);
    var j :| 0 <= j < |c| && (IsLower(c[j]) || IsUpper(c[j]) || IsDigit(c[j]));
    assert Lower(c)[j] == ToLower(c[j]);
  }

  lemma {:induction false} SplitCamelKeepsBraceFree(s: string, d: char)
    requires BraceFree(s) && d != '{' && d != '}'
    ensures BraceFree(SplitCamel(s, d))
    decreases |s|
  {
    if |s| >= 2 {
      if IsBoundary(s, 0) {
        SplitCamelKeepsBraceFree(s[2..], d);
      } else {
        SplitCamelKeepsBraceFree(s[1..], d);
      }
    }
  }

  lemma {:induction false} CollapseRunsKeepsBraceFree(s: string, style: Style)
    requires BraceFree(s)
    ensures BraceFree(CollapseRuns(s, style))
    decreases |s|
  {
    if s != [] {
      var head := if IsRunChar(s[0], style) then [style.Delimiter()] else [s[0]];
      var rest := if IsRunChar(s[0], style) then DropRun(s, style) else s[1..];
      assert CollapseRuns(s, style) == head + CollapseRuns(rest, style);
      assert rest == s[|s| - |rest|..];
      BraceFreeSuffix(s, |s| - |rest|);
      CollapseRunsKeepsBraceFree(rest, style);
      assert BraceFree(head);
      BraceFreeConcat(head, CollapseRuns(rest, style));
    }
  }

  /** No brace in the name, no brace in either spelling. */
  lemma ConvertKeepsBraceFree(s: string, style: Style)
    requires BraceFree(s)
    ensures BraceFree(Convert(s, style))
  {
    SplitCamelKeepsBraceFree(s, style.Delimiter());
    var c := CollapseRuns(SplitCamel(s, style.Delimiter()), style);
    CollapseRunsKeepsBraceFree(SplitCamel(s, style.Delimiter()), style);
    forall i | 0 <= i < |c| ensures Lower(c)[i] != '{' && Lower(c)[i] != '}' {
      assert Lower(c)[i] == ToLower(c[i]);
    }
  }

  // ---------------------------------------------------------------------
  // validateProjectName
  // ---------------------------------------------------------------------

  /** `name.length`: the number of UTF-16 code units, two for a character
      outside the Basic Multilingual Plane. */
  function Utf16Length(s: string): (n: nat)
    ensures |s| <= n <= 2 * |s|
    decreases |s|
  {
    if s == [] then 0
    else Utf16Length(s[..|s| - 1]) + (if s[|s| - 1] as int > 0xFFFF then 2 else 1)
  }

  lemma {:induction false} Utf16LengthOfBmp(s: string)
    requires forall i :: 0 <= i < |s| ==> s[i] as int <= 0xFFFF
    ensures Utf16Length(s) == |s|
    decreases |s|
  {
    if s != [] {
      Utf16LengthOfBmp(s[..|s| - 1]);
    }
  }

  /** `name.trim() === ""`: nothing but white space (the empty name included). */
  predicate Blank(name: string) {
    forall i :: 0 <= i < |name| ==> IsSpace(name[i])
  }

  /** The class `[a-zA-Z0-9._-]`. */
  predicate IsNameChar(c: char) {
    IsLower(c) || IsUpper(c) || IsDigit(c) || c == '.' || c == '_' || c == '-'
  }

  /** `/^[a-zA-Z0-9._-]*$/.test(name)`. */
  predicate NameChars(name: string) {
    forall i :: 0 <= i < |name| ==> IsNameChar(name[i])
  }

  /** The names refused whatever their case. */
  const ReservedNames: seq<string> := ["node_modules", "favicon.ico"]

  /** The checks of `validateProjectName`, in the order it makes them. */
  datatype NameRule = NotBlank | LengthLimit | NoLeadingDotOrUnderscore
                    | LowercaseOrPascal | AllowedCharacters | NotReserved

  const NameRules: seq<NameRule> :=
    [NotBlank, LengthLimit, NoLeadingDotOrUnderscore, LowercaseOrPascal, AllowedCharacters, NotReserved]

  /** `name` passes `rule`. */
  predicate Holds(rule: NameRule, name: string) {
    match rule
    case NotBlank => !Blank(name)
    case LengthLimit => Utf16Length(name) <= 214
    case NoLeadingDotOrUnderscore => !(|name| > 0 && (name[0] == '.' || name[0] == '_'))
    case LowercaseOrPascal => name == Lower(name) || (|name| > 0 && IsUpper(name[0]))
    case AllowedCharacters => |name| > 0 && NameChars(name)
    case NotReserved => Lower(name) !in ReservedNames
  }

  /** The message returned when `name` fails `rule`. */
  function Complaint(rule: NameRule, name: string): string {
    match rule
    case NotBlank => "Project name cannot be empty"
    case LengthLimit => "Project name must be less than 214 characters"
    case NoLeadingDotOrUnderscore => "Project name cannot start with . or _"
    case LowercaseOrPascal => "Project name should be lowercase or PascalCase"
    case AllowedCharacters => "Project name can only contain letters, numbers, hyphens, underscores, and dots"
    case NotReserved => "Project name \"" + name + "\" is not allowed"
  }

  /** The first rule of `rules` that `name` fails, if any. */
  function FirstViolation(rules: seq<NameRule>, name: string): (r: Option<NameRule>)
    ensures r.None? <==> forall k :: 0 <= k < |rules| ==> Holds(rules[k], name)
    ensures r.Some? ==> exists k :: 0 <= k < |rules| && rules[k] == r.value && !Holds(r.value, name)
                          && forall j :: 0 <= j < k ==> Holds(rules[j], name)
    decreases |rules|
  {
    if rules == [] then None
    else if !Holds(rules[0], name) then Some(rules[0])
    else
      var r := FirstViolation(rules[1..], name);
      assert forall k :: 1 <= k < |rules| ==> rules[k] == rules[1..][k - 1];
      if r.Some? then
        var k :| 0 <= k < |rules[1..]| && rules[1..][k] == r.value && !Holds(r.value, name)
                 && forall j :: 0 <= j < k ==> Holds(rules[1..][j], name);
        assert rules[k + 1] == r.value;
        r
      else r
  }

  /** `validateProjectName(name)`: `true`, or the message of the first check
      that fails. */
  function ValidateProjectName(name: string): (r: Validation)
    ensures r == Valid ==> 0 < |name| && NameChars(name)
    ensures r.Invalid? ==> |r.message| > 0
  {
    if |name| == 0 || Blank(name) then
      Invalid("Project name cannot be empty")
    else if Utf16Length(name) > 214 then
      Invalid("Project name must be less than 214 characters")
    else if name[0] == '.' || name[0] == '_' then
      Invalid("Project name cannot start with . or _")
    else if name != Lower(name) && !IsUpper(name[0]) then
      Invalid("Project name should be lowercase or PascalCase")
    else if !NameChars(name) then
      Invalid("Project name can only contain letters, numbers, hyphens, underscores, and dots")
    else if Lower(name) in ReservedNames then
      Invalid("Project name \"" + name + "\" is not allowed")
    else
      Valid
  }

  /** The chain of checks is the rule table read in order: the name is valid
      exactly when no rule fails, and otherwise the message is the complaint
      of the first rule that fails. */
  lemma ValidateFollowsRuleTable(name: string)
    ensures ValidateProjectName(name) ==
      match FirstViolation(NameRules, name)
      case None => Valid
      case Some(rule) => Invalid(Complaint(rule, name))
  {
    NameRulesInOrder(name);
    if !Holds(NotBlank, name) || !Holds(LengthLimit, name) || !Holds(NoLeadingDotOrUnderscore, name) {
      EarlyRulesFail(name);
    } else {
      LateRulesDecide(name);
    }
  }

  lemma EarlyRulesFail(name: string)
    requires !Holds(NotBlank, name) || !Holds(LengthLimit, name) || !Holds(NoLeadingDotOrUnderscore, name)
    ensures ValidateProjectName(name) ==
      if !Holds(NotBlank, name) then Invalid(Complaint(NotBlank, name))
      else if !Holds(LengthLimit, name) then Invalid(Complaint(LengthLimit, name))
      else Invalid(Complaint(NoLeadingDotOrUnderscore, name))
  {
  }

  lemma LateRulesDecide(name: string)
    requires Holds(NotBlank, name) && Holds(LengthLimit, name) && Holds(NoLeadingDotOrUnderscore, name)
    ensures ValidateProjectName(name) ==
      if !Holds(LowercaseOrPascal, name) then Invalid(Complaint(LowercaseOrPascal, name))
      else if !Holds(AllowedCharacters, name) then Invalid(Complaint(AllowedCharacters, name))
      else if !Holds(NotReserved, name) then Invalid(Complaint(NotReserved, name))
      else Valid
  {
  }

  /** The rule table unrolled. */
  lemma NameRulesInOrder(name: string)
    ensures FirstViolation(NameRules, name) ==
      if !Holds(NotBlank, name) then Some(NotBlank)
      else if !Holds(LengthLimit, name) then Some(LengthLimit)
      else if !Holds(NoLeadingDotOrUnderscore, name) then Some(NoLeadingDotOrUnderscore)
      else if !Holds(LowercaseOrPascal, name) then Some(LowercaseOrPascal)
      else if !Holds(AllowedCharacters, name) then Some(AllowedCharacters)
      else if !Holds(NotReserved, name) then Some(NotReserved)
      else None
  {
    var r1 := [LengthLimit, NoLeadingDotOrUnderscore, LowercaseOrPascal, AllowedCharacters, NotReserved];
    var r2 := [NoLeadingDotOrUnderscore, LowercaseOrPascal, AllowedCharacters, NotReserved];
    var r3 := [LowercaseOrPascal, AllowedCharacters, NotReserved];
    var r4 := [AllowedCharacters, NotReserved];
    var r5 := [NotReserved];
    assert NameRules[1..] == r1 && r1[1..] == r2 && r2[1..] == r3 && r3[1..] == r4 && r4[1..] == r5;
    assert r5[1..] == [];
  }

  /** What a valid name looks like: 1 to 214 characters of `[a-zA-Z0-9._-]`,
      not starting with `.` or `_`, either free of uppercase letters or
      starting with one, and none of the reserved names in any case. */
  lemma ValidNameShape(name: string)
    ensures ValidateProjectName(name) == Valid <==>
      && 0 < |name| <= 214
      && NameChars(name)
      && name[0] != '.' && name[0] != '_'
      && (IsUpper(name[0]) || forall i :: 0 <= i < |name| ==> !IsUpper(name[i]))
      && Lower(name) != "node_modules" && Lower(name) != "favicon.ico"
  {
    LowerFixesExactlyUppercaseFree(name);
    if 0 < |name| && NameChars(name) {
      Utf16LengthOfBmp(name);
      assert !IsSpace(name[0]);
    }
  }

  /** A valid name holds no brace, so it cannot complete a placeholder. */
  lemma ValidNameIsBraceFree(name: string)
    requires ValidateProjectName(name) == Valid
    ensures BraceFree(name)
  {
    ValidNameShape(name);
  }

  /** The length check lets 214 characters through and stops at 215,
      although its message says "less than 214". */
  lemma LengthBoundary()
    ensures ValidateProjectName(seq(214, i => 'a')) == Valid
    ensures ValidateProjectName(seq(215, i => 'a')) == Invalid("Project name must be less than 214 characters")
  {
    var ok := seq(214, i => 'a');
    var long := seq(215, i => 'a');
    Utf16LengthOfBmp(long);
    ValidNameShape(ok);
    LowerFixesExactlyUppercaseFree(ok);
    assert Lower(ok) != "node_modules" by { assert |Lower(ok)| == 214; }
    assert Lower(ok) != "favicon.ico" by { assert |Lower(ok)| == 214; }
    assert !Blank(long) by { assert !IsSpace(long[0]); }
  }

  lemma EmptyNames()
    ensures ValidateProjectName("") == Invalid("Project name cannot be empty")
    ensures ValidateProjectName(" \t") == Invalid("Project name cannot be empty")
  {
  }

  lemma HiddenName()
    ensures ValidateProjectName(".hidden") == Invalid("Project name cannot start with . or _")
  {
    assert !Blank(".hidden") by { assert !IsSpace(".hidden"[1]); }
  }

  /** camelCase is refused: neither lowercase nor starting with a capital. */
  lemma CamelCaseName()
    ensures ValidateProjectName("myPlugin") == Invalid("Project name should be lowercase or PascalCase")
  {
    assert !Blank("myPlugin") by { assert !IsSpace("myPlugin"[0]); }
    Utf16LengthOfBmp("myPlugin");
    assert "myPlugin" != Lower("myPlugin") by { assert Lower("myPlugin")[2] == 'p'; }
  }

  /** A path separator is outside the allowed class. */
  lemma NameWithSlash()
    ensures ValidateProjectName("my/plugin") == Invalid("Project name can only contain letters, numbers, hyphens, underscores, and dots")
  {
    SlashNameFacts();
    LateRulesDecide("my/plugin");
  }

  lemma SlashNameFacts()
    ensures !Blank("my/plugin") && Utf16Length("my/plugin") <= 214
    ensures "my/plugin" == Lower("my/plugin") && !NameChars("my/plugin")
  {
    var n := "my/plugin";
    assert !IsSpace(n[0]) && !IsNameChar(n[2]);
    Utf16LengthOfBmp(n);
    LowerFixesExactlyUppercaseFree(n);
  }

  /** The reserved names are refused in any case that passes the casing
      check, and the message quotes the name as given. */
  lemma ReservedNamesRefused(name: string)
    requires Lower(name) in ReservedNames
    requires name == Lower(name) || (|name| > 0 && IsUpper(name[0]))
    ensures ValidateProjectName(name) == Invalid("Project name \"" + name + "\" is not allowed")
  {
    ReservedNameShape(name);
    LateRulesDecide(name);
  }

  /** Any casing of a reserved name passes the first three checks and the
      character check. */
  lemma ReservedNameShape(name: string)
    requires Lower(name) in ReservedNames
    ensures !Blank(name) && Utf16Length(name) <= 214
    ensures name[0] != '.' && name[0] != '_' && NameChars(name)
  {
    ReservedNamesShape(Lower(name));
    LowerKeepsNameChars(name);
    NameCharsAreBmp(name);
    assert !IsSpace(name[0]);
  }

  /** A character that may start a name. */
  predicate GoodFirst(c: char) {
    c != '.' && c != '_' && !IsSpace(c)
  }

  /** Lowercasing neither adds nor removes a character of the class, and
      keeps a good first character good. */
  lemma LowerKeepsNameChars(name: string)
    ensures |Lower(name)| == |name|
    ensures NameChars(Lower(name)) ==> NameChars(name)
    ensures |name| > 0 && GoodFirst(Lower(name)[0]) ==> GoodFirst(name[0])
  {
    var low := Lower(name);
    if NameChars(low) {
      forall i | 0 <= i < |name| ensures IsNameChar(name[i]) {
        assert low[i] == ToLower(name[i]);
      }
    }
    if |name| > 0 {
      assert low[0] == ToLower(name[0]);
    }
  }

  /** The characters of the class are single UTF-16 code units. */
  lemma NameCharsAreBmp(name: string)
    requires NameChars(name)
    ensures Utf16Length(name) == |name|
  {
    Utf16LengthOfBmp(name);
  }

  lemma ReservedNamesShape(r: string)
    requires r in ReservedNames
    ensures 0 < |r| <= 214 && NameChars(r) && GoodFirst(r[0])
  {
    if r == "node_modules" {
      assert NameChars("node_modules");
    } else {
      assert NameChars("favicon.ico");
    }
  }

  /** The examples: "node_modules" in either casing. */
  lemma NodeModulesRefused()
    ensures ValidateProjectName("node_modules") == Invalid("Project name \"" + "node_modules" + "\" is not allowed")
    ensures ValidateProjectName("Node_Modules") == Invalid("Project name \"" + "Node_Modules" + "\" is not allowed")
  {
    NodeModulesLower();
    ReservedNamesRefused("node_modules");
    ReservedNamesRefused("Node_Modules");
  }

  lemma NodeModulesLower()
    ensures Lower("node_modules") == "node_modules" && Lower("Node_Modules") == "node_modules"
  {
    LowerFixesExactlyUppercaseFree("node_modules");
  }

  lemma ValidPascalName()
    ensures ValidateProjectName("MyPlugin") == Valid
  {
    assert NameChars("MyPlugin") && IsUpper("MyPlugin"[0]);
    assert |Lower("MyPlugin")| == 8;
    ValidNameShape("MyPlugin");
  }

  // ---------------------------------------------------------------------
  // validatePort and parseInt(_, 10)
  // ---------------------------------------------------------------------

  /** Leading white space, skipped. */
  function SkipSpaces(s: string): (r: string)
    ensures |r| <= |s| && r == s[|s| - |r|..]
    ensures r == [] || !IsSpace(r[0])
    ensures forall i :: 0 <= i < |s| - |r| ==> IsSpace(s[i])
    decreases |s|
  {
    if s != [] && IsSpace(s[0]) then
      var r := SkipSpaces(s[1..]);
      assert forall i :: 1 <= i < |s| - |r| ==> s[i] == s[1..][i - 1];
      r
    else s
  }

  /** The longest prefix of decimal digits. */
  function DigitPrefix(s: string): (r: string)
    ensures r <= s && AllDigits(r)
    ensures |r| == |s| || !IsDigit(s[|r|])
    decreases |s|
  {
    if s != [] && IsDigit(s[0]) then [s[0]] + DigitPrefix(s[1..]) else []
  }

  /** The value of a string of decimal digits. */
  function DigitsValue(s: string): nat
    requires AllDigits(s)
    decreases |s|
  {
    if s == [] then 0 else DigitsValue(s[..|s| - 1]) * 10 + DigitValue(s[|s| - 1])
  }

  /** `parseInt(s, 10)`: white space skipped, an optional sign, then the
      longest run of digits; `None` is `NaN`, when that run is empty. */
  function ParseInt(s: string): (r: Option<int>)
    ensures r.None? <==>
      var u := SkipSpaces(s);
      var v := if u != [] && (u[0] == '-' || u[0] == '+') then u[1..] else u;
      v == [] || !IsDigit(v[0])
  {
    ParseSigned(SkipSpaces(s))
  }

  /** An optional sign, then the longest run of digits. */
  function ParseSigned(t: string): Option<int> {
    if t != [] && t[0] == '-' then Negate(ParseDigits(t[1..]))
    else if t != [] && t[0] == '+' then ParseDigits(t[1..])
    else ParseDigits(t)
  }

  function Negate(r: Option<int>): Option<int> {
    if r.Some? then Some(-r.value) else None
  }

  /** The value of the longest run of digits at the front of `u`. */
  function ParseDigits(u: string): Option<int> {
    var digits := DigitPrefix(u);
    if digits == [] then None else Some(DigitsValue(digits))
  }

  lemma {:induction false} DigitsValueOfNat(n: nat)
    ensures DigitsValue(NatToString(n)) == n
    decreases n
  {
    if n >= 10 {
      DigitsValueOfNat(n / 10);
      var s := NatToString(n);
      assert s[..|s| - 1] == NatToString(n / 10);
    }
  }

  lemma {:induction false} DigitPrefixOfDigits(d: string, rest: string)
    requires AllDigits(d)
    requires rest == [] || !IsDigit(rest[0])
    ensures DigitPrefix(d + rest) == d
    decreases |d|
  {
    if d == [] {
      assert d + rest == rest;
    } else {
      assert (d + rest)[1..] == d[1..] + rest;
      DigitPrefixOfDigits(d[1..], rest);
    }
  }

  /** The decimal text of `m` reads back as `m`, whatever non-digit text
      follows it. */
  lemma ParseDigitsOfNat(m: nat, rest: string)
    requires rest == [] || !IsDigit(rest[0])
    ensures ParseDigits(NatToString(m) + rest) == Some(m)
  {
    DigitsValueOfNat(m);
    DigitPrefixOfDigits(NatToString(m), rest);
  }

  /** A minus sign negates the number that follows it. */
  lemma NegativeOf(u: string, x: int)
    requires ParseDigits(u) == Some(x)
    ensures ParseInt("-" + u) == Some(-x)
  {
    NoLeadingSpace("-" + u);
    MinusSign(u);
  }

  /** A text that starts with a digit or a sign has no white space to skip. */
  lemma NoLeadingSpace(s: string)
    requires s != [] && (IsDigit(s[0]) || s[0] == '-' || s[0] == '+')
    ensures SkipSpaces(s) == s
  {
  }

  lemma MinusSign(u: string)
    ensures ParseSigned("-" + u) == Negate(ParseDigits(u))
  {
    assert ("-" + u)[1..] == u;
  }

  /** `parseInt` reads back what `toString` writes, whatever non-digit text
      follows it. */
  lemma ParseIntRoundTrip(n: int, rest: string)
    requires rest == [] || !IsDigit(rest[0])
    ensures ParseInt(IntToString(n) + rest) == Some(n)
  {
    if n < 0 {
      ParseDigitsOfNat(-n, rest);
      NegativeOf(NatToString(-n) + rest, -n);
      AppendAssoc("-", NatToString(-n), rest);
    } else {
      ParseDigitsOfNat(n, rest);
      UnsignedOf(NatToString(n) + rest, n);
    }
  }

  /** Without a sign the number is read as it stands. */
  lemma UnsignedOf(u: string, x: int)
    requires u != [] && IsDigit(u[0]) && ParseDigits(u) == Some(x)
    ensures ParseInt(u) == Some(x)
  {
    NoLeadingSpace(u);
  }

  lemma {:induction false} SkipSpacesAfterBlank(w: string, s: string)
    requires Blank(w)
    ensures SkipSpaces(w + s) == SkipSpaces(s)
    decreases |w|
  {
    if w != [] {
      assert (w + s)[1..] == w[1..] + s;
      SkipSpacesAfterBlank(w[1..], s);
    } else {
      assert w + s == s;
    }
  }

  /** Leading white space does not change what `parseInt` reads. */
  lemma ParseIntSkipsSpaces(w: string, s: string)
    requires Blank(w)
    ensures ParseInt(w + s) == ParseInt(s)
  {
    SkipSpacesAfterBlank(w, s);
  }

  /** `validatePort(port)`: a number, then the range 1024 to 65535. */
  function ValidatePort(port: string): (r: Validation)
    ensures r == Valid <==> ParseInt(port).Some? && 1024 <= ParseInt(port).value <= 65535
    ensures r == Invalid("Port must be a number") <==> ParseInt(port).None?
  {
    var portNum := ParseInt(port);
    if portNum.None? then Invalid("Port must be a number")
    else if portNum.value < 1024 || portNum.value > 65535 then Invalid("Port must be between 1024 and 65535")
    else Valid
  }

  /** A numeric port, rendered in decimal as `parseInt` sees it, is accepted
      exactly when it lies in 1024..65535. */
  lemma PortOfNumber(n: int)
    ensures ValidatePort(IntToString(n)) == Valid <==> 1024 <= n <= 65535
    ensures ValidatePort(IntToString(n)) != Invalid("Port must be a number")
  {
    ParseIntRoundTrip(n, "");
    assert IntToString(n) + "" == IntToString(n);
  }

  /** Text with no digit after the optional sign is not a number. */
  lemma LettersAreNotAPort()
    ensures ValidatePort("abc") == Invalid("Port must be a number")
  {
    AbcHasNoDigits();
  }

  lemma AbcHasNoDigits()
    ensures ParseInt("abc") == None
  {
    NoNumberAtFront("abc");
  }

  /** Text that starts with neither white space, a sign nor a digit is not
      a number. */
  lemma NoNumberAtFront(s: string)
    requires s != [] && !IsSpace(s[0]) && !IsDigit(s[0]) && s[0] != '-' && s[0] != '+'
    ensures ParseInt(s) == None
  {
    assert SkipSpaces(s) == s;
    assert DigitPrefix(s) == [];
  }

  lemma EmptyIsNotAPort()
    ensures ValidatePort("") == Invalid("Port must be a number")
  {
  }

  lemma SignAloneIsNotAPort()
    ensures ValidatePort(" -") == Invalid("Port must be a number")
  {
    assert SkipSpaces(" -") == "-";
    MinusSign([]);
    assert "-" + [] == "-";
  }

  lemma PortBoundaries()
    ensures ValidatePort("1023") == Invalid("Port must be between 1024 and 65535")
    ensures ValidatePort("1024") == Valid
    ensures ValidatePort("65535") == Valid
    ensures ValidatePort("65536") == Invalid("Port must be between 1024 and 65535")
  {
    assert NatToString(1023) == "1023";
    assert NatToString(1024) == "1024";
    assert NatToString(65535) == "65535";
    assert NatToString(65536) == "65536";
    PortOfNumber(1023);
    PortOfNumber(1024);
    PortOfNumber(65535);
    PortOfNumber(65536);
  }

  /** `parseInt` skips leading white space and stops at the first
      non-digit, so a port in range with such text around it is accepted. */
  lemma PortWithSurroundingText(w: string, n: int, rest: string)
    requires Blank(w) && 1024 <= n <= 65535
    requires rest == [] || !IsDigit(rest[0])
    ensures ValidatePort(w + IntToString(n) + rest) == Valid
  {
    ParseIntRoundTrip(n, rest);
    ParseIntSkipsSpaces(w, IntToString(n) + rest);
    assert w + IntToString(n) + rest == w + (IntToString(n) + rest);
  }
}
