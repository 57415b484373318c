/**
 * The path transformation of the plugin: an ordered list of replacement rules folded over a folder
 * path, each rule seeing the previous rule's output; plus the helpers that build the dropdown
 * choices and escape text shown in rule headings.
 */
module Utils {
  import opened Wrappers
  import opened JsStrings
  import opened Types

  /** How a rule's kind tag is dispatched on; `fuzzy` is the legacy spelling of `regexp`. */
  datatype RuleKind = RegExpKind | FolderKind | ExactKind | TextKind | Unrecognised

  function KindOf(tag: Str): (k: RuleKind)
    ensures k == RegExpKind <==> tag == RegExpTag || tag == FuzzyTag
    ensures k == FolderKind <==> tag == FolderTag
    ensures k == ExactKind <==> tag == ExactTag
    ensures k == TextKind <==> tag == TextTag
  {
    if tag == RegExpTag || tag == FuzzyTag then RegExpKind
    else if tag == FolderTag then FolderKind
    else if tag == ExactTag then ExactKind
    else if tag == TextTag then TextKind
    else Unrecognised
  }

  /**
   * The regular-expression engine, left abstract: `re(pattern, replace, input)` is
   * `input.replace(new RegExp(pattern, "gu"), replace)`, or `None` when the pattern is rejected.
   */
  type RegExpReplace = (Str, Str, Str) -> Option<Str>

  /** The rule failed because its pattern is not a valid regular expression. */
  datatype RuleError = InvalidRegExp(pattern: Str)

  /** Replaces every `/`-separated segment equal to `pattern` by `replace`. */
  function ReplaceSegments(segs: seq<Str>, pattern: Str, replace: Str): (r: seq<Str>)
    ensures |r| == |segs|
    ensures pattern !in segs ==> r == segs
    ensures forall i :: 0 <= i < |r| ==> r[i] == segs[i] || r[i] == replace
    ensures forall i :: 0 <= i < |r| ==> (segs[i] == pattern ==> r[i] == replace) && (segs[i] != pattern ==> r[i] == segs[i])
  {
    seq(|segs|, i requires 0 <= i < |segs| => if segs[i] == pattern then replace else segs[i])
  }

  /**
   * One rule applied to the current path. A rule with an empty pattern or an unrecognised kind
   * keeps the path; only a regular-expression rule whose pattern the engine rejects fails.
   */
  function ApplyRule(rule: PathSettings, path: Str, re: RegExpReplace): (r: Result<Str, RuleError>)
    ensures rule.pattern == [] || KindOf(rule.kind) == Unrecognised ==> r == Ok(path)
    ensures r.Err? <==> LiveRegExp(rule) && re(rule.pattern, rule.replace, path).None?
    ensures r.Err? ==> r.error == InvalidRegExp(rule.pattern)
  {
    if rule.pattern == [] then Ok(path)
    else match KindOf(rule.kind)
      case RegExpKind =>
        (match re(rule.pattern, rule.replace, path)
         case Some(out) => Ok(out)
         case None => Err(InvalidRegExp(rule.pattern)))
      case FolderKind => Ok(Join(ReplaceSegments(Split(path), rule.pattern, rule.replace)))
      case ExactKind => Ok(if path == rule.pattern then rule.replace else path)
      case TextKind => Ok(ReplaceFirst(path, rule.pattern, rule.replace))
      case Unrecognised => Ok(path)
  }

  /**
   * The rules folded over `path` from left to right; the first rule that fails stops the fold and
   * its error is the result. A list of rules that are all blank or of an unknown kind keeps the path.
   */
  function ApplyPathSettings(rules: seq<PathSettings>, path: Str, re: RegExpReplace): (r: Result<Str, RuleError>)
    ensures (forall rule :: rule in rules ==> rule.pattern == [] || KindOf(rule.kind) == Unrecognised) ==> r == Ok(path)
  {
    if rules == [] then Ok(path)
    else
      match ApplyRule(rules[0], path, re)
      case Err(e) => Err(e)
      case Ok(next) => ApplyPathSettings(rules[1..], next, re)
  }

  /** Feeds an earlier outcome to one more list of rules, passing an error through unchanged. */
  function Then(prev: Result<Str, RuleError>, rules: seq<PathSettings>, re: RegExpReplace): Result<Str, RuleError>
  {
    match prev
    case Err(e) => Err(e)
    case Ok(p) => ApplyPathSettings(rules, p, re)
  }

  /** With no rules the path is returned unchanged. */
  lemma NoRulesIdentity(path: Str, re: RegExpReplace)
    ensures ApplyPathSettings([], path, re) == Ok(path)
  {
  }

  /**
   * Rules apply strictly left to right: the rules after a split point see the output of the rules
   * before it, not the original path.
   */
  lemma {:induction false} ApplyAppend(first: seq<PathSettings>, second: seq<PathSettings>, path: Str, re: RegExpReplace)
    ensures ApplyPathSettings(first + second, path, re) == Then(ApplyPathSettings(first, path, re), second, re)
  {
    if first == [] {
      assert first + second == second;
    } else {
      assert (first + second)[0] == first[0];
      assert (first + second)[1..] == first[1..] + second;
      match ApplyRule(first[0], path, re)
      case Err(e) =>
      case Ok(next) => ApplyAppend(first[1..], second, next, re);
    }
  }

  /** A rule added at the end acts on the output of all the rules before it. */
  lemma LastRuleSeesPriorOutput(rules: seq<PathSettings>, last: PathSettings, path: Str, re: RegExpReplace)
    ensures ApplyPathSettings(rules + [last], path, re) ==
      match ApplyPathSettings(rules, path, re)
      case Err(e) => Err(e)
      case Ok(p) => ApplyRule(last, p, re)
  {
    ApplyAppend(rules, [last], path, re);
    match ApplyPathSettings(rules, path, re)
    case Err(e) =>
    case Ok(p) =>
      assert [last][1..] == [];
      match ApplyRule(last, p, re)
      case Err(e) =>
      case Ok(n) => assert ApplyPathSettings([last], p, re) == ApplyPathSettings([], n, re);
  }

  /** The rules whose pattern is not empty, in their original order. */
  function NonBlank(rules: seq<PathSettings>): (r: seq<PathSettings>)
    ensures |r| <= |rules|
    ensures forall i :: 0 <= i < |r| ==> r[i].pattern != [] && r[i] in rules
    ensures forall x :: x in rules && x.pattern != [] ==> x in r
  {
    if rules == [] then []
    else if rules[0].pattern == [] then NonBlank(rules[1..])
    else [rules[0]] + NonBlank(rules[1..])
  }

  /** A rule with an empty pattern does nothing, whatever its kind, so dropping all of them changes nothing. */
  lemma {:induction false} BlankRulesIgnored(rules: seq<PathSettings>, path: Str, re: RegExpReplace)
    ensures ApplyPathSettings(NonBlank(rules), path, re) == ApplyPathSettings(rules, path, re)
  {
    if rules != [] {
      if rules[0].pattern == [] {
        BlankRulesIgnored(rules[1..], path, re);
      } else {
        var nb := [rules[0]] + NonBlank(rules[1..]);
        assert nb[0] == rules[0] && nb[1..] == NonBlank(rules[1..]);
        match ApplyRule(rules[0], path, re)
        case Err(e) =>
        case Ok(next) => BlankRulesIgnored(rules[1..], next, re);
      }
    }
  }

  /** A rule with an empty pattern leaves the path unchanged, whatever its kind. */
  lemma BlankRule(rule: PathSettings, path: Str, re: RegExpReplace)
    requires rule.pattern == []
    ensures ApplyRule(rule, path, re) == Ok(path)
  {
  }

  /** An `exact` rule yields its replacement when the whole path equals its pattern, else the path. */
  lemma ExactRule(pattern: Str, replace: Str, path: Str, re: RegExpReplace)
    requires pattern != []
    ensures ApplyRule(PathSettings(ExactTag, pattern, replace), path, re) ==
      Ok(if path == pattern then replace else path)
  {
  }

  /**
   * A `folder` rule replaces every `/`-separated segment equal to its pattern: with a slash-free
   * replacement the result has as many segments as the path, each equal to the replacement where
   * the path's segment matched and to the path's own segment elsewhere.
   */
  lemma FolderRule(pattern: Str, replace: Str, path: Str, re: RegExpReplace)
    requires pattern != [] && Slash !in replace
    ensures ApplyRule(PathSettings(FolderTag, pattern, replace), path, re).Ok?
    ensures var segs := Split(path);
      var out := Split(ApplyRule(PathSettings(FolderTag, pattern, replace), path, re).value);
      |out| == |segs| &&
      forall i :: 0 <= i < |segs| ==> out[i] == if segs[i] == pattern then replace else segs[i]
  {
    var segs := Split(path);
    SplitJoin(ReplaceSegments(segs, pattern, replace));
  }

  /** A `folder` rule whose pattern equals no segment of the path leaves the path unchanged. */
  lemma FolderRuleNoMatch(pattern: Str, replace: Str, path: Str, re: RegExpReplace)
    requires pattern != [] && pattern !in Split(path)
    ensures ApplyRule(PathSettings(FolderTag, pattern, replace), path, re) == Ok(path)
  {
    var segs := Split(path);
    assert ReplaceSegments(segs, pattern, replace) == segs;
    JoinSplit(path);
  }

  /**
   * A `text` rule replaces only the first occurrence of its pattern (literally, when the
   * replacement has no `$`), and leaves a path without an occurrence unchanged.
   */
  lemma TextRule(pattern: Str, replace: Str, path: Str, re: RegExpReplace)
    requires pattern != [] && '$' !in replace
    ensures var r := ApplyRule(PathSettings(TextTag, pattern, replace), path, re);
      match IndexOf(path, pattern)
      case None => r == Ok(path)
      case Some(i) =>
        r == Ok(path[..i] + replace + path[i + |pattern|..]) &&
        OccursAt(path, pattern, i) &&
        forall j :: 0 <= j < i ==> !OccursAt(path, pattern, j)
  {
    ReplaceFirstLiteral(path, pattern, replace);
  }

  /** Turns every legacy `fuzzy` tag into `regexp`. */
  function FuzzyToRegExp(rules: seq<PathSettings>): (r: seq<PathSettings>)
    ensures |r| == |rules|
    ensures forall i :: 0 <= i < |rules| ==> r[i].pattern == rules[i].pattern && r[i].replace == rules[i].replace
    ensures forall i :: 0 <= i < |rules| ==> r[i].kind != FuzzyTag
    ensures forall i :: 0 <= i < |rules| ==>
      r[i] == if rules[i].kind == FuzzyTag then rules[i].(kind := RegExpTag) else rules[i]
  {
    seq(|rules|, i requires 0 <= i < |rules| =>
      if rules[i].kind == FuzzyTag then rules[i].(kind := RegExpTag) else rules[i])
  }

  /** `fuzzy` rules behave exactly as `regexp` rules. */
  lemma {:induction false} FuzzyIsRegExp(rules: seq<PathSettings>, path: Str, re: RegExpReplace)
    ensures ApplyPathSettings(FuzzyToRegExp(rules), path, re) == ApplyPathSettings(rules, path, re)
  {
    if rules != [] {
      var fr := FuzzyToRegExp(rules);
      assert fr[1..] == FuzzyToRegExp(rules[1..]);
      assert ApplyRule(fr[0], path, re) == ApplyRule(rules[0], path, re);
      match ApplyRule(rules[0], path, re)
      case Err(e) =>
      case Ok(next) => FuzzyIsRegExp(rules[1..], next, re);
    }
  }

  /** A rule whose kind tag is none of the known ones leaves the path unchanged. */
  lemma UnrecognisedKindIgnored(rule: PathSettings, path: Str, re: RegExpReplace)
    requires rule.kind !in {ExactTag, FolderTag, TextTag, RegExpTag, FuzzyTag}
    ensures ApplyRule(rule, path, re) == Ok(path)
  {
  }

  /** The rule is a regular-expression rule that is not switched off by an empty pattern. */
  predicate LiveRegExp(rule: PathSettings)
  {
    rule.pattern != [] && KindOf(rule.kind) == RegExpKind
  }

  /**
   * Only regular-expression rules can fail: without one the fold always yields a path, and an error
   * names the pattern of a regular-expression rule in the list.
   */
  lemma {:induction false} OnlyRegExpRulesFail(rules: seq<PathSettings>, path: Str, re: RegExpReplace)
    ensures (forall i :: 0 <= i < |rules| ==> !LiveRegExp(rules[i])) ==> ApplyPathSettings(rules, path, re).Ok?
    ensures ApplyPathSettings(rules, path, re).Err? ==>
      exists i :: 0 <= i < |rules| && LiveRegExp(rules[i]) && rules[i].pattern == ApplyPathSettings(rules, path, re).error.pattern
  {
    if rules != [] {
      match ApplyRule(rules[0], path, re)
      case Err(e) =>
        assert LiveRegExp(rules[0]);
      case Ok(next) =>
        OnlyRegExpRulesFail(rules[1..], next, re);
        if ApplyPathSettings(rules, path, re).Err? {
          var i :| 0 <= i < |rules[1..]| && LiveRegExp(rules[1..][i]) && rules[1..][i].pattern == ApplyPathSettings(rules, path, re).error.pattern;
          assert rules[i + 1] == rules[1..][i];
        }
        if forall i :: 0 <= i < |rules| ==> !LiveRegExp(rules[i]) {
          assert forall i :: 0 <= i < |rules[1..]| ==> !LiveRegExp(rules[1..][i]);
        }
    }
  }

  // The cases of the plugin's own test file, stated over the model.

  lemma ExactExamples(re: RegExpReplace)
    ensures ApplyPathSettings([PathSettings(ExactTag, "trash/notes", "🗑/📝")], "trash/notes", re) == Ok("🗑/📝")
    ensures ApplyPathSettings([PathSettings(ExactTag, "trash/notes", "🗑/📝")], "notes", re) == Ok("notes")
  {
  }

  lemma ApplySingle(rule: PathSettings, path: Str, re: RegExpReplace)
    ensures ApplyPathSettings([rule], path, re) == ApplyRule(rule, path, re)
  {
    assert [rule][1..] == [];
  }

  lemma ApplyPair(first: PathSettings, second: PathSettings, path: Str, re: RegExpReplace)
    ensures ApplyPathSettings([first, second], path, re) ==
      match ApplyRule(first, path, re)
      case Err(e) => Err(e)
      case Ok(p) => ApplyRule(second, p, re)
  {
    assert [first, second][1..] == [second];
    match ApplyRule(first, path, re)
    case Err(e) =>
    case Ok(p) => ApplySingle(second, p, re);
  }

  /** `Split("a/b")` for slash-free `a` and `b`. */
  lemma SplitTwo(a: Str, b: Str)
    requires Slash !in a && Slash !in b
    ensures Split(a + [Slash] + b) == [a, b]
  {
    SplitAtSlash(a, b);
    SplitNoSlash(b);
  }

  /** A folder rule on a two-segment path `a/b`. */
  lemma FolderPairStep(rule: PathSettings, a: Str, b: Str, re: RegExpReplace)
    requires rule.kind == FolderTag && rule.pattern != []
    requires Slash !in a && Slash !in b
    ensures ApplyRule(rule, a + [Slash] + b, re) ==
      Ok((if a == rule.pattern then rule.replace else a) + [Slash] + (if b == rule.pattern then rule.replace else b))
  {
    SplitTwo(a, b);
    var out := ReplaceSegments([a, b], rule.pattern, rule.replace);
    assert out == [if a == rule.pattern then rule.replace else a, if b == rule.pattern then rule.replace else b];
    assert Join(out) == out[0] + [Slash] + Join(out[1..]);
  }

  lemma TrashStep(re: RegExpReplace)
    ensures ApplyRule(PathSettings(FolderTag, "trash", "🗑"), "trash/notes", re) == Ok("🗑/notes")
  {
    assert "trash/notes" == "trash" + [Slash] + "notes";
    FolderPairStep(PathSettings(FolderTag, "trash", "🗑"), "trash", "notes", re);
    assert "🗑" + [Slash] + "notes" == "🗑/notes";
  }

  lemma NotesStep(re: RegExpReplace)
    ensures ApplyRule(PathSettings(FolderTag, "notes", "📝"), "🗑/notes", re) == Ok("🗑/📝")
  {
    assert "🗑/notes" == "🗑" + [Slash] + "notes";
    FolderPairStep(PathSettings(FolderTag, "notes", "📝"), "🗑", "notes", re);
    assert "🗑" + [Slash] + "📝" == "🗑/📝";
  }

  lemma DailyStep(re: RegExpReplace)
    ensures ApplyRule(PathSettings(FolderTag, "daily", "🗓"), "daily/20220101", re) == Ok("🗓/20220101")
  {
    assert "daily/20220101" == "daily" + [Slash] + "20220101";
    FolderPairStep(PathSettings(FolderTag, "daily", "🗓"), "daily", "20220101", re);
    assert "🗓" + [Slash] + "20220101" == "🗓/20220101";
  }

  lemma FolderExamples(re: RegExpReplace)
    ensures ApplyPathSettings([PathSettings(FolderTag, "trash", "🗑"), PathSettings(FolderTag, "notes", "📝")], "trash/notes", re)
      == Ok("🗑/📝")
    ensures ApplyPathSettings([PathSettings(FolderTag, "trash", "🗑")], "trash/notes", re) == Ok("🗑/notes")
  {
    TrashStep(re);
    NotesStep(re);
    ApplySingle(PathSettings(FolderTag, "trash", "🗑"), "trash/notes", re);
    ApplyPair(PathSettings(FolderTag, "trash", "🗑"), PathSettings(FolderTag, "notes", "📝"), "trash/notes", re);
  }

  lemma TextExample(re: RegExpReplace)
    ensures ApplyPathSettings([PathSettings(TextTag, "001 ", "1. ")], "001 Index", re) == Ok("1. Index")
  {
    var rule := PathSettings(TextTag, "001 ", "1. ");
    assert OccursAt("001 Index", "001 ", 0);
    assert IndexOf("001 Index", "001 ") == Some(0);
    ReplaceFirstLiteral("001 Index", "001 ", "1. ");
    assert "001 Index"[..0] == [] && "001 Index"[4..] == "Index";
    assert ReplaceFirst("001 Index", "001 ", "1. ") == [] + "1. " + "Index";
    assert [] + "1. " + "Index" == "1. Index";
    assert KindOf(TextTag) == TextKind;
    assert ApplyRule(rule, "001 Index", re) == Ok("1. Index");
    ApplySingle(rule, "001 Index", re);
  }

  /** The regular expression of the mixed case sees the output of the folder rule before it. */
  lemma MixedExample(re: RegExpReplace)
    ensures ApplyPathSettings([PathSettings(FolderTag, "daily", "🗓"),
                               PathSettings(RegExpTag, "/([0-9]{4})([0-9]{2})([0-9]{2})$", " $1-$2-$3")],
                              "daily/20220101", re)
      == match re("/([0-9]{4})([0-9]{2})([0-9]{2})$", " $1-$2-$3", "🗓/20220101")
         case Some(out) => Ok(out)
         case None => Err(InvalidRegExp("/([0-9]{4})([0-9]{2})([0-9]{2})$"))
  {
    DailyStep(re);
    ApplyPair(PathSettings(FolderTag, "daily", "🗓"),
              PathSettings(RegExpTag, "/([0-9]{4})([0-9]{2})([0-9]{2})$", " $1-$2-$3"), "daily/20220101", re);
  }

  // Dropdown choices.

  /** The folder names a path contributes: none for the root `/`, otherwise its segments. */
  function FolderNamesOf(path: Str): (names: seq<Str>)
    ensures forall i :: 0 <= i < |names| ==> Slash !in names[i]
    ensures path != "/" ==> |names| >= 1 && Join(names) == path
  {
    if path == "/" then [] else JoinSplit(path); Split(path)
  }

  /** The folder names of all the paths, in order, repeats included. */
  function AllFolderNames(paths: seq<Str>): (names: seq<Str>)
    ensures forall i :: 0 <= i < |names| ==> Slash !in names[i]
  {
    if paths == [] then []
    else AllFolderNames(paths[..|paths| - 1]) + FolderNamesOf(paths[|paths| - 1])
  }

  /** No value occurs twice. */
  predicate Distinct<T(==)>(s: seq<T>)
  {
    forall i, j :: 0 <= i < j < |s| ==> s[i] != s[j]
  }

  /**
   * The values of `s` in order of first appearance, each once: what adding them to a JavaScript
   * `Set` one by one and reading the set back gives.
   */
  function Unique(s: seq<Str>): (u: seq<Str>)
    ensures Distinct(u)
    ensures forall x :: x in u <==> x in s
  {
    if s == [] then []
    else
      var prefix := Unique(s[..|s| - 1]);
      assert forall x :: x in s <==> x in s[..|s| - 1] || x == s[|s| - 1];
      if s[|s| - 1] in prefix then prefix else prefix + [s[|s| - 1]]
  }

  /** The index at which `x` first occurs in `s`. */
  function FirstIndex(s: seq<Str>, x: Str): (i: nat)
    requires x in s
    ensures i < |s| && s[i] == x && x !in s[..i]
  {
    if s[0] == x then 0
    else
      assert s == [s[0]] + s[1..];
      var i := 1 + FirstIndex(s[1..], x);
      assert s[..i] == [s[0]] + s[1..][..i - 1];
      i
  }

  /** Any index holding `x` with no earlier `x` is its first index. */
  lemma FirstIndexUnique(s: seq<Str>, x: Str, i: nat)
    requires i < |s| && s[i] == x && x !in s[..i]
    ensures FirstIndex(s, x) == i
  {
  }

  /** `Unique` keeps values in the order in which they first appear. */
  lemma {:induction false} UniqueInFirstSeenOrder(s: seq<Str>)
    ensures forall i, j :: 0 <= i < j < |Unique(s)| ==> FirstIndex(s, Unique(s)[i]) < FirstIndex(s, Unique(s)[j])
  {
    if s != [] {
      var n := |s| - 1;
      var init := s[..n];
      var prefix := Unique(init);
      UniqueInFirstSeenOrder(init);
      assert s[..n] == init;
      forall x | x in init
        ensures FirstIndex(s, x) == FirstIndex(init, x)
      {
        var k := FirstIndex(init, x);
        assert s[..k] == init[..k];
        FirstIndexUnique(s, x, k);
      }
      if s[n] !in prefix {
        FirstIndexUnique(s, s[n], n);
        var u := prefix + [s[n]];
        assert u == Unique(s);
        assert forall k :: 0 <= k < |u| ==> u[k] in s;
        forall i | 0 <= i < |prefix|
          ensures FirstIndex(s, u[i]) < FirstIndex(s, u[|prefix|])
        {
          assert u[i] == prefix[i] && prefix[i] in init;
        }
      }
    }
  }

  /** Adding one more value to the set: kept only if it is new. */
  lemma UniqueSnoc(s: seq<Str>, x: Str)
    ensures Unique(s + [x]) == if x in Unique(s) then Unique(s) else Unique(s) + [x]
  {
    assert (s + [x])[..|s|] == s;
  }

  /** One more path contributes its own folder names after those of the paths before it. */
  lemma AllFolderNamesSnoc(paths: seq<Str>, i: nat)
    requires i < |paths|
    ensures AllFolderNames(paths[..i + 1]) == AllFolderNames(paths[..i]) + FolderNamesOf(paths[i])
  {
    assert paths[..i + 1][..i] == paths[..i];
  }

  /** Adds each of `segs` to the ordered set `names` (the inner `for` of `getAllFolderNames`). */
  method AddAll(names: seq<Str>, segs: seq<Str>, ghost seen: seq<Str>) returns (added: seq<Str>)
    requires names == Unique(seen)
    ensures added == Unique(seen + segs)
  {
    added := names;
    assert seen + segs[..0] == seen;
    for j := 0 to |segs|
      invariant added == Unique(seen + segs[..j])
    {
      UniqueSnoc(seen + segs[..j], segs[j]);
      assert seen + segs[..j + 1] == seen + segs[..j] + [segs[j]];
      if segs[j] !in added {
        added := added + [segs[j]];
      }
    }
    assert segs[..|segs|] == segs;
  }

  /**
   * `getAllFolderNames`: every folder name of every path except `/`, each once, in order of first
   * appearance.
   */
  method GetAllFolderNames(folderPaths: seq<Str>) returns (names: seq<Str>)
    ensures names == Unique(AllFolderNames(folderPaths))
  {
    names := [];
    for i := 0 to |folderPaths|
      invariant names == Unique(AllFolderNames(folderPaths[..i]))
    {
      AllFolderNamesSnoc(folderPaths, i);
      if folderPaths[i] != "/" {
        names := AddAll(names, Split(folderPaths[i]), AllFolderNames(folderPaths[..i]));
      } else {
        assert AllFolderNames(folderPaths[..i]) + [] == AllFolderNames(folderPaths[..i]);
      }
    }
    assert folderPaths[..|folderPaths|] == folderPaths;
  }

  /** A name is among the folder names exactly when some path other than `/` has it as a segment. */
  lemma {:induction false} AllFolderNamesMembers(paths: seq<Str>)
    ensures forall x :: x in AllFolderNames(paths) <==> exists p :: p in paths && p != "/" && x in Split(p)
  {
    if paths != [] {
      var init := paths[..|paths| - 1];
      var last := paths[|paths| - 1];
      AllFolderNamesMembers(init);
      assert paths == init + [last];
      forall x | x in AllFolderNames(paths)
        ensures exists p :: p in paths && p != "/" && x in Split(p)
      {
        if x in AllFolderNames(init) {
          var p :| p in init && p != "/" && x in Split(p);
          assert p in paths;
        } else {
          assert last != "/" && x in Split(last);
        }
      }
      forall x | exists p :: p in paths && p != "/" && x in Split(p)
        ensures x in AllFolderNames(paths)
      {
        var p :| p in paths && p != "/" && x in Split(p);
        if p != last {
          assert p in init;
        }
      }
    }
  }

  /**
   * What the folder-name dropdown offers: each folder name of every path except `/`, with no name
   * twice, in order of first appearance.
   */
  lemma FolderNamesSpec(folderPaths: seq<Str>)
    ensures var names := Unique(AllFolderNames(folderPaths));
      && Distinct(names)
      && (forall x :: x in names <==> exists p :: p in folderPaths && p != "/" && x in Split(p))
      && forall i, j :: 0 <= i < j < |names| ==>
           FirstIndex(AllFolderNames(folderPaths), names[i]) < FirstIndex(AllFolderNames(folderPaths), names[j])
  {
    AllFolderNamesMembers(folderPaths);
    UniqueInFirstSeenOrder(AllFolderNames(folderPaths));
  }

  /** `arrayToChoices`: a record mapping every item to itself, and nothing else. */
  method ArrayToChoices(items: seq<Str>) returns (choices: map<Str, Str>)
    ensures choices.Keys == set x | x in items
    ensures forall k :: k in choices ==> choices[k] == k
  {
    choices := map[];
    for i := 0 to |items|
      invariant choices.Keys == set x | x in items[..i]
      invariant forall k :: k in choices ==> choices[k] == k
    {
      assert items[..i + 1] == items[..i] + [items[i]];
      choices := choices[items[i] := items[i]];
    }
    assert items[..|items|] == items;
  }

  lemma AllFolderNamesPair(a: Str, b: Str)
    ensures AllFolderNames([a, b]) == FolderNamesOf(a) + FolderNamesOf(b)
  {
    AllFolderNamesSnoc([a, b], 0);
    AllFolderNamesSnoc([a, b], 1);
    assert [a, b][..0] == [] && [a, b][..2] == [a, b];
  }

  lemma UniqueTriple(x: Str, y: Str)
    requires x != y
    ensures Unique([x, y, y]) == [x, y]
  {
    UniqueSnoc([], x);
    assert [] + [x] == [x];
    var u1 := Unique([x]);
    assert u1 == [x];
    UniqueSnoc([x], y);
    assert [x] + [y] == [x, y];
    var u2 := Unique([x, y]);
    assert u2 == [x, y];
    UniqueSnoc([x, y], y);
    assert [x, y] + [y] == [x, y, y];
  }

  /** The folder names of the paths `a/b` and `b`: `a` then `b`, once each. */
  lemma FolderNamesNested(a: Str, b: Str)
    requires Slash !in a && Slash !in b && a != b
    ensures Unique(AllFolderNames([a + [Slash] + b, b])) == [a, b]
  {
    var p := a + [Slash] + b;
    SplitTwo(a, b);
    assert |p| >= 2;
    assert FolderNamesOf(p) == [a, b];
    SplitNoSlash(b);
    assert b != "/" by { assert "/"[0] == Slash; }
    assert FolderNamesOf(b) == [b];
    AllFolderNamesPair(p, b);
    assert [a, b] + [b] == [a, b, b];
    UniqueTriple(a, b);
  }

  lemma FolderNamesExample()
    ensures Unique(AllFolderNames(["archive/notes", "notes"])) == ["archive", "notes"]
  {
    assert "archive/notes" == "archive" + [Slash] + "notes";
    FolderNamesNested("archive", "notes");
  }

  // Escaping text shown in rule headings.

  /** Every `c` in `t` is preceded by a backslash. */
  predicate AllEscaped(t: Str, c: char)
  {
    forall i :: 0 <= i < |t| && t[i] == c ==> i > 0 && t[i - 1] == '\\'
  }

  /**
   * `escapeQuotes` as written: `s.replace('"', '\\"')` with a string pattern, which escapes the
   * first double quote only.
   */
  function EscapeQuotes(s: Str): (r: Str)
    ensures '"' !in s ==> r == s
    ensures '"' in s ==> |r| == |s| + 1
    ensures '"' in s ==>
      (exists i :: 0 <= i < |s| && s[i] == '"' && '"' !in s[..i] && r == s[..i] + ['\\', '"'] + s[i + 1..])
  {
    var r := ReplaceFirst(s, "\"", "\\\"");
    EscapeFirstShape(s, '"');
    r
  }

  /** `escapeSlashes` as written: `s.replace("/", "\\/")`, which escapes the first slash only. */
  function EscapeSlashes(s: Str): (r: Str)
    ensures Slash !in s ==> r == s
    ensures Slash in s ==> |r| == |s| + 1
    ensures Slash in s ==>
      (exists i :: 0 <= i < |s| && s[i] == Slash && Slash !in s[..i] && r == s[..i] + ['\\', Slash] + s[i + 1..])
  {
    var r := ReplaceFirst(s, [Slash], ['\\', Slash]);
    EscapeFirstShape(s, Slash);
    r
  }

  /** A character that does not occur is not found. */
  lemma AbsentChar(s: Str, c: char)
    requires c !in s
    ensures IndexOf(s, [c]).None?
  {
    forall j | 0 <= j <= |s| ensures !OccursAt(s, [c], j) {
      if j < |s| {
        assert s[j] in s;
        assert s[j..j + 1] == [s[j]];
      }
    }
  }

  /** A character that occurs is found at its first position. */
  lemma PresentChar(s: Str, c: char)
    requires c in s
    ensures IndexOf(s, [c]).Some?
    ensures var i := IndexOf(s, [c]).value; i < |s| && s[i] == c && c !in s[..i]
  {
    if IndexOf(s, [c]).None? {
      var i :| 0 <= i < |s| && s[i] == c;
      assert OccursAt(s, [c], i);
    }
    var i := IndexOf(s, [c]).value;
    assert s[i..i + 1] == [c];
    forall j | 0 <= j < i ensures s[j] != c {
      assert !OccursAt(s, [c], j);
      assert s[j..j + 1] == [s[j]];
    }
  }

  /** Replacing the first `c` by a backslash and `c` inserts one backslash before the first `c`. */
  lemma EscapeFirstShape(s: Str, c: char)
    requires c != '$'
    ensures c !in s ==> ReplaceFirst(s, [c], ['\\', c]) == s
    ensures c in s ==>
      (exists i :: 0 <= i < |s| && s[i] == c && c !in s[..i] &&
         ReplaceFirst(s, [c], ['\\', c]) == s[..i] + ['\\', c] + s[i + 1..])
  {
    if c !in s {
      AbsentChar(s, c);
    } else {
      PresentChar(s, c);
      var i := IndexOf(s, [c]).value;
      ReplaceFirstLiteral(s, [c], ['\\', c]);
      assert ReplaceFirst(s, [c], ['\\', c]) == s[..i] + ['\\', c] + s[i + 1..];
    }
  }

  /** A heading text with two double quotes keeps the second one unescaped. */
  lemma EscapeQuotesMissesSecondQuote()
    ensures EscapeQuotes("\"\"") == "\\\"\""
    ensures !AllEscaped(EscapeQuotes("\"\""), '"')
  {
    EscapeFirstShape("\"\"", '"');
    var r := EscapeQuotes("\"\"");
    assert r[2] == '"' && r[1] != '\\';
  }

  /** A regular expression shown with two slashes keeps the second one unescaped. */
  lemma EscapeSlashesMissesSecondSlash()
    ensures EscapeSlashes("//") == "\\//"
    ensures !AllEscaped(EscapeSlashes("//"), Slash)
  {
    EscapeFirstShape("//", Slash);
    var r := EscapeSlashes("//");
    assert r[2] == Slash && r[1] != '\\';
  }

  /** Every `c` in `s` preceded by a backslash: the escaping the heading helpers evidently intend. */
  function EscapeAll(s: Str, c: char): (r: Str)
    requires c != '\\'
    ensures AllEscaped(r, c)
    ensures c !in s ==> r == s
    ensures r == [] || r[0] != c
  {
    if s == [] then []
    else
      var rest := EscapeAll(s[1..], c);
      if s[0] == c then ['\\', c] + rest else [s[0]] + rest
  }

  /** Removes the backslash in front of each `c`. */
  function Unescape(t: Str, c: char): Str
  {
    if t == [] then []
    else if |t| >= 2 && t[0] == '\\' && t[1] == c then [c] + Unescape(t[2..], c)
    else [t[0]] + Unescape(t[1..], c)
  }

  /** Escaping loses nothing: removing the added backslashes gives the text back. */
  lemma {:induction false} UnescapeEscapeAll(s: Str, c: char)
    requires c != '\\'
    ensures Unescape(EscapeAll(s, c), c) == s
  {
    if s != [] {
      UnescapeEscapeAll(s[1..], c);
      var rest := EscapeAll(s[1..], c);
      if s[0] == c {
        assert (['\\', c] + rest)[2..] == rest;
      } else {
        assert ([s[0]] + rest)[1..] == rest;
      }
    }
  }

  /** `escapeQuotes` as intended: every double quote escaped. */
  function EscapeQuotesAll(s: Str): (r: Str)
    ensures AllEscaped(r, '"') && Unescape(r, '"') == s
  {
    UnescapeEscapeAll(s, '"');
    EscapeAll(s, '"')
  }

  /** `escapeSlashes` as intended: every slash escaped. */
  function EscapeSlashesAll(s: Str): (r: Str)
    ensures AllEscaped(r, Slash) && Unescape(r, Slash) == s
  {
    UnescapeEscapeAll(s, Slash);
    EscapeAll(s, Slash)
  }
}
