/**
 * The "Join Datasets" node of the pipeline editor: the Python fragment it emits
 * (`generateComponentCode`), its imports, its form's defaults and options, and the decision
 * rule of the helper functions that fragment calls (`check_cartesian_product`, `perform_join`,
 * `main_join`), taken over abstract facts about the data frames.
 */
module JoinNode {
  import opened Wrappers
  import opened Strings

  // ---------------------------------------------------------------------------
  // Configuration
  // ---------------------------------------------------------------------------

  /** One entry of a `columns` field: a column name, or (`named == false`) a raw Python expression. */
  datatype KeyColumn = KeyColumn(value: string, named: bool)

  /**
   * The node's configuration. The two column lists are absent until the user fills in the form:
   * the default configuration does not carry them.
   */
  datatype Config = Config(
    leftKeyColumn: Option<seq<KeyColumn>>,
    rightKeyColumn: Option<seq<KeyColumn>>,
    how: string,
    policy: string)

  /** `defaultConfig`: a left join, and "Do nothing" about cartesian products. */
  const DefaultConfig := Config(None, None, "left", "0")

  datatype SelectOption = SelectOption(value: string, caption: string)

  /** The options of the "Join type" field, in the form's order. */
  const HowOptions := [
    SelectOption("inner", "Inner"),
    SelectOption("left", "Left"),
    SelectOption("right", "Right"),
    SelectOption("outer", "Outer"),
    SelectOption("cross", "Cross"),
    SelectOption("anti-left", "Anti Left"),
    SelectOption("anti-right", "Anti Right")
  ]

  /** The placeholder the "Join type" field shows. */
  const HowPlaceholder := "Default: Inner"

  /** The options of the "Cartesian Product (duplicate keys)" field. */
  const PolicyOptions := [
    SelectOption("0", "Do nothing"),
    SelectOption("2", "Raise error if Cartesian product is detected"),
    SelectOption("3", "Raise warning if Cartesian product is detected")
  ]

  /** The `condition` of the policy field: the join types for which it is shown. */
  const PolicyCondition := ["inner", "left", "right", "outer", "anti-right", "anti-left"]

  function Values(options: seq<SelectOption>): (r: seq<string>)
    ensures |r| == |options| && forall k :: 0 <= k < |options| ==> r[k] == options[k].value
  {
    seq(|options|, k requires 0 <= k < |options| => options[k].value)
  }

  /** Whether the form shows the policy field for join type `how`. */
  predicate PolicyVisible(how: string) {
    how in PolicyCondition
  }

  /** Among the join types the form offers, the policy field is hidden for `cross` alone. */
  lemma PolicyVisibleExceptCross(how: string)
    requires how in Values(HowOptions)
    ensures PolicyVisible(how) <==> how != "cross"
  {
    var k :| 0 <= k < |HowOptions| && Values(HowOptions)[k] == how;
    assert how == HowOptions[k].value;
  }

  /** The condition lists every join type the form offers except `cross`, and nothing else. */
  lemma PolicyConditionIsOptionsButCross()
    ensures (set v | v in PolicyCondition) == (set v | v in Values(HowOptions) && v != "cross")
  {
    var vs := Values(HowOptions);
    assert vs == ["inner", "left", "right", "outer", "cross", "anti-left", "anti-right"];
  }

  /** The placeholder announces an inner join, but an untouched form performs a left join. */
  lemma PlaceholderDisagreesWithDefault()
    ensures HowPlaceholder == "Default: " + HowOptions[0].caption && HowOptions[0].value == "inner"
    ensures DefaultConfig.how == HowOptions[1].value && DefaultConfig.how != "inner"
  {
  }

  // ---------------------------------------------------------------------------
  // `provideImports`
  // ---------------------------------------------------------------------------

  function ProvideImports(config: Config): seq<string> {
    ["import pandas as pd", "import warnings"]
  }

  /** `line` is a Python import that makes `name` available. */
  ghost predicate Binds(line: string, name: string) {
    line == "import " + name
    || exists m :: line == "import " + m + " as " + name && m != ""
  }

  /**
   * Whatever the configuration, the imports are the same two lines, and they bind the two names
   * the helper functions use: `pd` (for `pd.merge`) and `warnings` (for `warnings.warn`).
   */
  lemma ImportsBindHelperNames(config: Config, other: Config)
    ensures ProvideImports(config) == ProvideImports(other)
    ensures |ProvideImports(config)| == 2
    ensures Binds(ProvideImports(config)[0], "pd")
    ensures Binds(ProvideImports(config)[1], "warnings")
  {
    assert "import pandas as pd" == "import " + "pandas" + " as " + "pd";
  }

  // ---------------------------------------------------------------------------
  // `generateComponentCode`
  // ---------------------------------------------------------------------------

  /** A column name in double quotes, a raw expression verbatim; nothing is escaped. */
  function RenderKey(c: KeyColumn): string {
    if c.named then "\"" + c.value + "\"" else c.value
  }

  function RenderKeys(cols: seq<KeyColumn>): (r: seq<string>)
    ensures |r| == |cols| && forall k :: 0 <= k < |cols| ==> r[k] == RenderKey(cols[k])
  {
    seq(|cols|, k requires 0 <= k < |cols| => RenderKey(cols[k]))
  }

  /** `[${keys.join(', ')}]`. */
  function RenderKeyList(cols: seq<KeyColumn>): string {
    "[" + JoinWith(RenderKeys(cols), ", ") + "]"
  }

  /** The comment line of the fragment. */
  function Header(in1: string, in2: string): string {
    "# Join " + in1 + " and " + in2
  }

  /** The assignment line of the fragment. */
  function CallLine(left: string, right: string, how: string, policy: string,
                    in1: string, in2: string, out: string): string {
    out + "=main_join(" + in1 + ", " + in2 + ", key_left=" + left + ", key_right=" + right
      + ", " + JoinTypeArg(how) + ", " + PolicyArg(policy) + ")"
  }

  function JoinTypeArg(how: string): string {
    "join_type='" + how + "'"
  }

  function PolicyArg(policy: string): string {
    "action_if_cartesian_product=" + policy
  }

  /**
   * `generateComponentCode`: `None` where the source's `config.leftKeyColumn.map` or
   * `config.rightKeyColumn.map` would throw because that list is absent.
   */
  function GenerateComponentCode(config: Config, in1: string, in2: string, out: string): (r: Option<string>)
    ensures r.Some? <==> config.leftKeyColumn.Some? && config.rightKeyColumn.Some?
  {
    match (config.leftKeyColumn, config.rightKeyColumn)
    case (Some(l), Some(r)) =>
      Some(Header(in1, in2) + "\n"
        + CallLine(RenderKeyList(l), RenderKeyList(r), config.how, config.policy, in1, in2, out))
    case _ => None
  }

  /** An untouched form cannot produce code: the key columns have to be chosen first. */
  lemma DefaultConfigNeedsColumns(in1: string, in2: string, out: string)
    ensures GenerateComponentCode(DefaultConfig, in1, in2, out) == None
  {
  }

  // ---------------------------------------------------------------------------
  // Reading the fragment back
  // ---------------------------------------------------------------------------

  /** No character of `s` is `c`. */
  predicate Free(s: string, c: char) {
    c !in s
  }

  predicate ColumnsFree(cols: seq<KeyColumn>, c: char) {
    forall k :: 0 <= k < |cols| ==> Free(cols[k].value, c)
  }

  lemma {:induction false} JoinWithFree(xs: seq<string>, sep: string, c: char)
    requires Free(sep, c) && forall k :: 0 <= k < |xs| ==> Free(xs[k], c)
    ensures Free(JoinWith(xs, sep), c)
  {
    if |xs| > 1 {
      JoinWithFree(xs[1..], sep, c);
    }
  }

  lemma KeyListFree(cols: seq<KeyColumn>, c: char)
    requires ColumnsFree(cols, c) && c != '"' && c != ',' && c != ' ' && c != '[' && c != ']'
    ensures Free(RenderKeyList(cols), c)
  {
    forall k | 0 <= k < |cols|
      ensures Free(RenderKeys(cols)[k], c)
    {
      RenderKeyFree(cols[k], c);
    }
    JoinWithFree(RenderKeys(cols), ", ", c);
  }

  lemma CallLineFree(left: string, right: string, how: string, policy: string,
                     in1: string, in2: string, out: string)
    requires Free(left, '\n') && Free(right, '\n') && Free(how, '\n') && Free(policy, '\n')
    requires Free(in1, '\n') && Free(in2, '\n') && Free(out, '\n')
    ensures Free(CallLine(left, right, how, policy, in1, in2, out), '\n')
  {
  }

  /**
   * When no name, join type, policy or column holds a line break, the fragment is exactly two
   * lines: the comment naming both inputs, then the assignment calling `main_join`.
   */
  lemma CodeLines(config: Config, l: seq<KeyColumn>, r: seq<KeyColumn>, in1: string, in2: string, out: string)
    requires config.leftKeyColumn == Some(l) && config.rightKeyColumn == Some(r)
    requires ColumnsFree(l, '\n') && ColumnsFree(r, '\n')
    requires Free(in1, '\n') && Free(in2, '\n') && Free(out, '\n')
    requires Free(config.how, '\n') && Free(config.policy, '\n')
    ensures GenerateComponentCode(config, in1, in2, out).Some?
    ensures Split(GenerateComponentCode(config, in1, in2, out).value, '\n')
         == [Header(in1, in2),
             CallLine(RenderKeyList(l), RenderKeyList(r), config.how, config.policy, in1, in2, out)]
  {
    var left, right := RenderKeyList(l), RenderKeyList(r);
    KeyListFree(l, '\n');
    KeyListFree(r, '\n');
    var h := Header(in1, in2);
    var call := CallLine(left, right, config.how, config.policy, in1, in2, out);
    assert Free(h, '\n');
    CallLineFree(left, right, config.how, config.policy, in1, in2, out);
    assert JoinOn([h, call], '\n') == h + "\n" + call by {
      assert [h, call][1..] == [call];
    }
    SplitJoin([h, call], '\n');
  }

  /** Reads one rendered key: a double-quoted text is a column name, anything else an expression. */
  function ParseKey(part: string): KeyColumn {
    if |part| >= 2 && part[0] == '"' && part[|part| - 1] == '"' then KeyColumn(part[1..|part| - 1], true)
    else KeyColumn(part, false)
  }

  /** Reads the keys after the first, each of which follows a `, ` separator. */
  function ParseMoreKeys(parts: seq<string>): Option<seq<KeyColumn>> {
    if parts == [] then Some([])
    else if parts[0] == [] || parts[0][0] != ' ' then None
    else
      match ParseMoreKeys(parts[1..])
      case None => None
      case Some(rest) => Some([ParseKey(parts[0][1..])] + rest)
  }

  /** Reads a key list `[k1, k2, …]` back into its columns. */
  function ParseKeyList(s: string): Option<seq<KeyColumn>> {
    if |s| < 2 || s[0] != '[' || s[|s| - 1] != ']' then None
    else
      var inner := s[1..|s| - 1];
      if inner == [] then Some([])
      else
        var parts := Split(inner, ',');
        match ParseMoreKeys(parts[1..])
        case None => None
        case Some(rest) => Some([ParseKey(parts[0])] + rest)
  }

  /** Columns whose rendering can be read back: no quotes or commas, and no empty expression. */
  predicate Readable(cols: seq<KeyColumn>) {
    ColumnsFree(cols, '"') && ColumnsFree(cols, ',')
    && forall k :: 0 <= k < |cols| ==> cols[k].named || cols[k].value != ""
  }

  /** The rendered keys, the ones after the first carrying the space of their `, ` separator. */
  function Spaced(xs: seq<string>): (r: seq<string>)
    requires |xs| >= 1
    ensures |r| == |xs| && r[0] == xs[0]
    ensures forall k :: 1 <= k < |xs| ==> r[k] == " " + xs[k]
  {
    [xs[0]] + seq(|xs| - 1, k requires 0 <= k < |xs| - 1 => " " + xs[k + 1])
  }

  lemma JoinOnSpace(a: string, rest: seq<string>, d: char)
    ensures JoinOn([" " + a] + rest, d) == " " + JoinOn([a] + rest, d)
  {
    if rest != [] {
      assert ([" " + a] + rest)[1..] == rest && ([a] + rest)[1..] == rest;
    }
  }

  /** `xs.join(', ')` is `xs.join(',')` with a space opening every item after the first. */
  lemma {:induction false} JoinWithComma(xs: seq<string>)
    requires |xs| >= 1
    ensures JoinWith(xs, ", ") == JoinOn(Spaced(xs), ',')
  {
    if |xs| > 1 {
      var tail := xs[1..];
      JoinWithComma(tail);
      var sp := Spaced(xs);
      assert sp[1..] == [" " + tail[0]] + Spaced(tail)[1..];
      assert Spaced(tail) == [tail[0]] + Spaced(tail)[1..];
      JoinOnSpace(tail[0], Spaced(tail)[1..], ',');
      assert JoinOn(sp, ',') == sp[0] + [','] + JoinOn(sp[1..], ',');
    }
  }

  lemma ParseKeyRender(c: KeyColumn)
    requires Free(c.value, '"')
    ensures ParseKey(RenderKey(c)) == c
  {
    if c.named {
      var s := RenderKey(c);
      assert s[1..|s| - 1] == c.value;
    } else if |c.value| >= 2 {
      assert c.value[0] in c.value;
    }
  }

  lemma {:induction false} ParseMoreKeysRender(cols: seq<KeyColumn>, parts: seq<string>)
    requires ColumnsFree(cols, '"')
    requires |parts| == |cols| && forall k :: 0 <= k < |cols| ==> parts[k] == " " + RenderKey(cols[k])
    ensures ParseMoreKeys(parts) == Some(cols)
  {
    if cols != [] {
      ParseMoreKeysRender(cols[1..], parts[1..]);
      assert parts[0][1..] == RenderKey(cols[0]);
      ParseKeyRender(cols[0]);
      assert [cols[0]] + cols[1..] == cols;
    }
  }

  lemma RenderKeyFree(col: KeyColumn, c: char)
    requires Free(col.value, c) && c != '"'
    ensures Free(RenderKey(col), c)
  {
  }

  lemma SpacedCommaFree(cols: seq<KeyColumn>)
    requires |cols| >= 1 && ColumnsFree(cols, ',')
    ensures forall k :: 0 <= k < |cols| ==> ',' !in Spaced(RenderKeys(cols))[k]
  {
    var sp := Spaced(RenderKeys(cols));
    forall k | 0 <= k < |cols|
      ensures ',' !in sp[k]
    {
      RenderKeyFree(cols[k], ',');
      assert sp[k] == RenderKey(cols[k]) || sp[k] == " " + RenderKey(cols[k]);
    }
  }

  /**
   * A key list reads back as the configured columns, one per column and in order, as long as no
   * column text holds a quote or a comma and no expression is empty.
   */
  lemma KeyListRoundTrip(cols: seq<KeyColumn>)
    requires Readable(cols)
    ensures ParseKeyList(RenderKeyList(cols)) == Some(cols)
  {
    var s := RenderKeyList(cols);
    var xs := RenderKeys(cols);
    var inner := JoinWith(xs, ", ");
    assert s[1..|s| - 1] == inner;
    if cols != [] {
      var sp := Spaced(xs);
      assert Split(inner, ',') == sp by {
        JoinWithComma(xs);
        SpacedCommaFree(cols);
        SplitJoin(sp, ',');
      }
      assert inner != [] by {
        JoinWithComma(xs);
        assert RenderKey(cols[0]) != [] by {
          assert cols[0].named || cols[0].value != "";
        }
        if |sp| > 1 {
          assert JoinOn(sp, ',') == sp[0] + [','] + JoinOn(sp[1..], ',');
        }
      }
      assert ParseKey(sp[0]) == cols[0] by {
        ParseKeyRender(cols[0]);
      }
      assert ParseMoreKeys(sp[1..]) == Some(cols[1..]) by {
        ParseMoreKeysRender(cols[1..], sp[1..]);
      }
      assert [cols[0]] + cols[1..] == cols;
    }
  }

  /** Without escaping, a quote in a column name makes two different key lists render alike. */
  lemma KeyListAmbiguous()
    ensures var one := [KeyColumn("a\", \"b", true)];
      var two := [KeyColumn("a", true), KeyColumn("b", true)];
      one != two && RenderKeyList(one) == RenderKeyList(two)
  {
    var one := [KeyColumn("a\", \"b", true)];
    var two := [KeyColumn("a", true), KeyColumn("b", true)];
    var x, y, z := RenderKey(two[0]), RenderKey(two[1]), RenderKey(one[0]);
    assert RenderKeys(two) == [x, y];
    assert RenderKeys(one) == [z];
    assert JoinWith([x, y], ", ") == x + ", " + y by {
      assert [x, y][1..] == [y];
    }
    assert x + ", " + y == z;
  }

  lemma OccursExtend(s: string, t: string, i: int, b: string)
    requires OccursAt(s, t, i)
    ensures OccursAt(s + b, t, i)
  {
    assert (s + b)[i..i + |t|] == s[i..i + |t|];
  }

  lemma OccursShift(s: string, t: string, i: int, a: string)
    requires OccursAt(s, t, i)
    ensures OccursAt(a + s, t, |a| + i)
  {
    assert (a + s)[|a| + i..|a| + i + |t|] == s[i..i + |t|];
  }

  lemma OccursLast(a: string, t: string)
    ensures OccursAt(a + t, t, |a|)
  {
    assert (a + t)[|a|..|a| + |t|] == t;
  }

  /**
   * The join type is spliced between single quotes, and the policy after `=` without quotes,
   * whatever they are: no option list is consulted.
   */
  lemma JoinTypeVerbatim(config: Config, l: seq<KeyColumn>, r: seq<KeyColumn>, in1: string, in2: string, out: string)
    requires config.leftKeyColumn == Some(l) && config.rightKeyColumn == Some(r)
    ensures Contains(GenerateComponentCode(config, in1, in2, out).value, "join_type='" + config.how + "'")
    ensures Contains(GenerateComponentCode(config, in1, in2, out).value,
                     "action_if_cartesian_product=" + config.policy + ")")
  {
    var code := GenerateComponentCode(config, in1, in2, out).value;
    var left, right := RenderKeyList(l), RenderKeyList(r);
    var head := Header(in1, in2) + "\n";
    var j, p := JoinTypeArg(config.how), PolicyArg(config.policy);
    var x := out + "=main_join(" + in1 + ", " + in2 + ", key_left=" + left + ", key_right=" + right + ", ";
    var call := CallLine(left, right, config.how, config.policy, in1, in2, out);
    assert call == x + j + ", " + p + ")";
    assert code == head + call;
    OccursLast(x, j);
    OccursExtend(x + j, j, |x|, ", ");
    OccursExtend(x + j + ", ", j, |x|, p);
    OccursExtend(x + j + ", " + p, j, |x|, ")");
    OccursShift(call, j, |x|, head);
    OccursLast(x + j + ", ", p + ")");
    assert x + j + ", " + (p + ")") == call;
    OccursShift(call, p + ")", |x + j + ", "|, head);
  }

  // ---------------------------------------------------------------------------
  // The helper functions the fragment calls, over abstract facts about the frames
  // ---------------------------------------------------------------------------

  datatype JoinKind = Inner | LeftJoin | RightJoin | Outer | Cross | AntiLeft | AntiRight

  /**
   * What `main_join` does: return a joined frame or raise, in either case possibly after
   * the cartesian-product warning.
   */
  datatype Outcome = Joined(kind: JoinKind, warned: bool) | Raised(message: string, warned: bool)

  const CartesianError := "Cartesian product detected and not allowed."

  /** `perform_join`'s dispatch: the join it performs, or `None` where it raises. */
  function PerformJoin(joinType: string): Option<JoinKind> {
    if joinType == "inner" then Some(Inner)
    else if joinType == "left" then Some(LeftJoin)
    else if joinType == "right" then Some(RightJoin)
    else if joinType == "outer" then Some(Outer)
    else if joinType == "cross" then Some(Cross)
    else if joinType == "anti-left" then Some(AntiLeft)
    else if joinType == "anti-right" then Some(AntiRight)
    else None
  }

  /** `check_cartesian_product`: a product is reported when neither side's keys are unique. */
  predicate IsCartesian(leftUnique: bool, rightUnique: bool) {
    !(leftUnique || rightUnique)
  }

  /** Whether `main_join` runs the cartesian-product check. */
  predicate Guarded(joinType: string, action: int) {
    joinType != "cross" && (action == 2 || action == 3)
  }

  /**
   * `main_join`: the guard first (action 2 raises, action 3 warns, when a product is reported),
   * then the dispatch.
   */
  function MainJoin(joinType: string, action: int, leftUnique: bool, rightUnique: bool): Outcome {
    var flagged := Guarded(joinType, action) && IsCartesian(leftUnique, rightUnique);
    if flagged && action == 2 then Raised(CartesianError, false)
    else
      match PerformJoin(joinType)
      case None => Raised("Unsupported join type: " + joinType, flagged && action == 3)
      case Some(kind) => Joined(kind, flagged && action == 3)
  }

  /** The `how` value of each join kind, as the form offers it. */
  function HowValue(kind: JoinKind): string {
    match kind
    case Inner => "inner"
    case LeftJoin => "left"
    case RightJoin => "right"
    case Outer => "outer"
    case Cross => "cross"
    case AntiLeft => "anti-left"
    case AntiRight => "anti-right"
  }

  /** The dispatch accepts exactly the join types the form offers, each as the join it names. */
  lemma DispatchMatchesOptions(joinType: string, kind: JoinKind)
    ensures PerformJoin(joinType).Some? <==> joinType in Values(HowOptions)
    ensures PerformJoin(joinType) == Some(kind) <==> joinType == HowValue(kind)
  {
    assert Values(HowOptions) == ["inner", "left", "right", "outer", "cross", "anti-left", "anti-right"];
  }

  /** The error about a cartesian product is raised exactly under action 2 with both sides duplicated. */
  lemma CartesianErrorExactly(joinType: string, action: int, leftUnique: bool, rightUnique: bool)
    ensures MainJoin(joinType, action, leftUnique, rightUnique) == Raised(CartesianError, false)
        <==> joinType != "cross" && action == 2 && !leftUnique && !rightUnique
  {
    if PerformJoin(joinType).None? {
      assert "Unsupported join type: " + joinType != CartesianError by {
        assert ("Unsupported join type: " + joinType)[0] == 'U' != CartesianError[0];
      }
    }
  }

  /**
   * The warning is issued exactly under action 3 with both sides duplicated and a non-cross
   * type; a supported type then joins, any other type then raises the dispatch error.
   */
  lemma WarningExactly(joinType: string, action: int, leftUnique: bool, rightUnique: bool)
    ensures MainJoin(joinType, action, leftUnique, rightUnique).warned
        <==> joinType != "cross" && action == 3 && !leftUnique && !rightUnique
    ensures (MainJoin(joinType, action, leftUnique, rightUnique).Joined?
             && MainJoin(joinType, action, leftUnique, rightUnique).warned)
        <==> PerformJoin(joinType).Some? && joinType != "cross" && action == 3 && !leftUnique && !rightUnique
    ensures PerformJoin(joinType).None? && !(action == 2 && !leftUnique && !rightUnique) ==>
      MainJoin(joinType, action, leftUnique, rightUnique)
        == Raised("Unsupported join type: " + joinType, joinType != "cross" && action == 3 && !leftUnique && !rightUnique)
  {
  }

  /** The guard comes before the dispatch: its error wins even over an unsupported join type. */
  lemma GuardBeforeDispatch(joinType: string)
    requires joinType != "cross"
    ensures MainJoin(joinType, 2, false, false) == Raised(CartesianError, false)
  {
  }

  /** A cross join ignores the policy, as the form does by hiding the field. */
  lemma CrossIgnoresPolicy(action: int, leftUnique: bool, rightUnique: bool)
    ensures MainJoin("cross", action, leftUnique, rightUnique) == Joined(Cross, false)
  {
  }

  /** A side with unique keys makes the policy irrelevant. */
  lemma UniqueSideNeverFlagged(joinType: string, action: int, leftUnique: bool, rightUnique: bool)
    requires leftUnique || rightUnique
    ensures MainJoin(joinType, action, leftUnique, rightUnique) == MainJoin(joinType, 0, leftUnique, rightUnique)
  {
  }

  /**
   * For the join types on offer, the policy field is shown exactly when the policy can change
   * the outcome.
   */
  lemma PolicyShownIffItMatters(how: string)
    requires how in Values(HowOptions)
    ensures PolicyVisible(how) <==> MainJoin(how, 2, false, false) != MainJoin(how, 0, false, false)
    ensures !PolicyVisible(how) ==>
      forall action: int, lu: bool, ru: bool :: MainJoin(how, action, lu, ru) == MainJoin(how, 0, lu, ru)
  {
    PolicyVisibleExceptCross(how);
    DispatchMatchesOptions(how, Inner);
    if how != "cross" {
      assert MainJoin(how, 0, false, false).Joined?;
    }
  }

  /**
   * The integer the Python literal `policy` denotes, when the text is a decimal literal
   * without underscores: digits only, and no leading zero unless every digit is zero.
   */
  function PolicyAction(policy: string): Option<int> {
    match ReadNat(policy)
    case Some((n, rest)) =>
      if rest == [] && (n == 0 || (|policy| > 0 && policy[0] != '0')) then Some(n) else None
    case None => None
  }

  lemma ReadTwoDigits(t: string)
    requires |t| == 2 && IsDigit(t[0]) && IsDigit(t[1])
    ensures ReadNat(t) == Some((DigitValue(t[0]) * 10 + DigitValue(t[1]), ""))
  {
    assert AllDigits(t);
    DigitRunOf(t, "");
    assert t + "" == t;
    assert t[..2] == t && t[2..] == "";
    assert t[..1] == [t[0]];
    assert DigitsValue(t[..1]) == DigitValue(t[0]);
  }

  /** Python accepts `00` but rejects `02`, a nonzero literal with a leading zero. */
  lemma LeadingZeros()
    ensures PolicyAction("00") == Some(0)
    ensures PolicyAction("02") == None
    ensures PolicyAction("20") == Some(20)
  {
    ReadTwoDigits("00");
    ReadTwoDigits("02");
    ReadTwoDigits("20");
  }

  /** Every policy option is an integer literal for one of `main_join`'s documented actions. */
  lemma PolicyOptionsAreActions(k: nat)
    requires k < |PolicyOptions|
    ensures PolicyAction(PolicyOptions[k].value) == Some([0, 2, 3][k])
  {
    var n := [0, 2, 3][k];
    assert PolicyOptions[k].value == Dec(n) + "";
    ReadNatDec(n, "");
  }

  /** With the defaults, the emitted call performs a left join and never raises or warns. */
  lemma DefaultsJoinQuietly(leftUnique: bool, rightUnique: bool)
    ensures PolicyAction(DefaultConfig.policy) == Some(0)
    ensures MainJoin(DefaultConfig.how, PolicyAction(DefaultConfig.policy).value, leftUnique, rightUnique)
         == Joined(LeftJoin, false)
  {
    PolicyOptionsAreActions(0);
  }
}
