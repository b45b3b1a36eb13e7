/** The status parser: turns the text printed by `batt status` into a battery
    reading, the way `get_current_batt_info` does with its two regular
    expressions

      Current charge:\s*(\d+)%
      State:\s*(charging|discharging|not charging)

    Each is searched for leftmost-first (Python's `re.search`) and matched
    case-sensitively. No backtracking can change a match of either pattern:
    whitespace, digits, '%' and the first letters of the three state words are
    pairwise distinct, so a greedy left-to-right scan decides the match. */
module StatusParser {
  import opened Wrappers
  import opened ControlPort

  /** The battery's own account of what it is doing. */
  datatype BatteryState = Charging | Discharging | NotCharging

  /** One reading of the status text; a field is absent when its pattern did not match. */
  datatype Reading = Reading(percentage: Option<nat>, state: Option<BatteryState>)

  const ChargeLabel: string := "Current charge:"
  const StateLabel: string := "State:"

  /** The word the status text uses for a battery state. */
  function StateText(t: BatteryState): string {
    match t
    case Charging => "charging"
    case Discharging => "discharging"
    case NotCharging => "not charging"
  }

  /** The characters Python's `str.isspace` accepts, listed one by one: a cross-check of
      the ranges of IsSpace, which the parser uses (IsSpaceWhitespace proves they agree). */
  const Whitespace: set<char> := {
    '\t', '\n', '\U{0B}', '\U{0C}', '\r', '\U{1C}', '\U{1D}', '\U{1E}', '\U{1F}', ' ',
    '\U{85}', '\U{A0}', '\U{1680}',
    '\U{2000}', '\U{2001}', '\U{2002}', '\U{2003}', '\U{2004}', '\U{2005}',
    '\U{2006}', '\U{2007}', '\U{2008}', '\U{2009}', '\U{200A}',
    '\U{2028}', '\U{2029}', '\U{202F}', '\U{205F}', '\U{3000}'
  }

  /** Python's `\s` on text, as the ranges of Unicode whitespace. */
  predicate IsSpace(c: char) {
    ('\t' <= c <= '\r') || ('\U{1C}' <= c <= ' ') || c == '\U{85}' || c == '\U{A0}'
    || c == '\U{1680}' || ('\U{2000}' <= c <= '\U{200A}') || c == '\U{2028}' || c == '\U{2029}'
    || c == '\U{202F}' || c == '\U{205F}' || c == '\U{3000}'
  }

  /** The ranges of IsSpace hold exactly the listed whitespace characters. */
  lemma IsSpaceWhitespace(c: char)
    ensures IsSpace(c) <==> c in Whitespace
  {
  }

  /** `\d`, restricted to the ASCII digits. */
  predicate IsDigit(c: char) {
    '0' <= c <= '9'
  }

  predicate AllSpaces(s: string) {
    forall k :: 0 <= k < |s| ==> IsSpace(s[k])
  }

  predicate AllDigits(s: string) {
    forall k :: 0 <= k < |s| ==> IsDigit(s[k])
  }

  function DigitValue(c: char): nat
    requires IsDigit(c)
  {
    (c as int - '0' as int) as nat
  }

  function DigitChar(d: nat): (c: char)
    requires d < 10
    ensures IsDigit(c) && DigitValue(c) == d
  {
    ('0' as int + d) as char
  }

  /** Does the text w occur in s at position i? */
  predicate TextAt(s: string, i: nat, w: string) {
    i + |w| <= |s| && s[i..i + |w|] == w
  }

  /** The end of the run of whitespace that starts at i (what a greedy `\s*` consumes). */
  function SkipSpaces(s: string, i: nat): (k: nat)
    requires i <= |s|
    ensures i <= k <= |s|
    ensures forall j :: i <= j < k ==> IsSpace(s[j])
    ensures k == |s| || !IsSpace(s[k])
    decreases |s| - i
  {
    if i < |s| && IsSpace(s[i]) then SkipSpaces(s, i + 1) else i
  }

  /** The end of the run of digits that starts at i (what a greedy `\d+` consumes). */
  function DigitsEnd(s: string, i: nat): (k: nat)
    requires i <= |s|
    ensures i <= k <= |s|
    ensures forall j :: i <= j < k ==> IsDigit(s[j])
    ensures k == |s| || !IsDigit(s[k])
    decreases |s| - i
  {
    if i < |s| && IsDigit(s[i]) then DigitsEnd(s, i + 1) else i
  }

  function Pow10(k: nat): nat {
    if k == 0 then 1 else 10 * Pow10(k - 1)
  }

  /** The value Python's `int()` gives a string of decimal digits (leading zeros allowed):
      k digits denote less than 10^k, and at least 10^(k-1) when the first is not '0'. */
  function DecimalValue(ds: string): (n: nat)
    requires AllDigits(ds)
    ensures n < Pow10(|ds|)
    ensures ds != [] && ds[0] != '0' ==> Pow10(|ds| - 1) <= n
    decreases |ds|
  {
    if ds == [] then 0 else 10 * DecimalValue(ds[..|ds| - 1]) + DigitValue(ds[|ds| - 1])
  }

  /** The decimal numeral of n, without leading zeros (Python's `str(n)`). */
  function DecimalDigits(n: nat): (ds: string)
    ensures ds != [] && AllDigits(ds)
    ensures DecimalValue(ds) == n
    ensures n >= 10 ==> ds[0] != '0'
    decreases n
  {
    if n < 10 then [DigitChar(n)]
    else
      var ds := DecimalDigits(n / 10) + [DigitChar(n % 10)];
      assert ds[..|ds| - 1] == DecimalDigits(n / 10);
      ds
  }

  /** A slice is all whitespace (or all digits) iff every character in its range is. */
  lemma SliceClasses(s: string, a: nat, b: nat)
    requires a <= b <= |s|
    ensures AllSpaces(s[a..b]) <==> forall j :: a <= j < b ==> IsSpace(s[j])
    ensures AllDigits(s[a..b]) <==> forall j :: a <= j < b ==> IsDigit(s[j])
  {
    assert forall j :: a <= j < b ==> s[a..b][j - a] == s[j];
  }

  /** `Current charge:\s*(\d+)%` matches at i with its `\s*` ending at d and its `\d+` at e. */
  predicate ChargeMatch(s: string, i: nat, d: nat, e: nat) {
    TextAt(s, i, ChargeLabel) && i + |ChargeLabel| <= d < e < |s|
    && AllSpaces(s[i + |ChargeLabel|..d]) && AllDigits(s[d..e]) && s[e] == '%'
  }

  /** A charge match has only one shape: `\s*` cannot take a digit, `\d+` cannot take the '%'. */
  lemma ChargeMatchUnique(s: string, i: nat, d: nat, e: nat)
    requires ChargeMatch(s, i, d, e)
    ensures d == SkipSpaces(s, i + |ChargeLabel|) && e == DigitsEnd(s, d)
  {
    var n := |ChargeLabel|;
    SliceClasses(s, i + n, d);
    SliceClasses(s, d, e);
    SkipSpacesUnique(s, i + n, d);
    DigitsEndUnique(s, d, e);
  }

  /** `int()` ignores leading zeros: "0" + ds denotes the same number as ds. */
  lemma {:induction false} LeadingZero(ds: string)
    requires AllDigits(ds)
    ensures AllDigits("0" + ds) && DecimalValue("0" + ds) == DecimalValue(ds)
    decreases |ds|
  {
    var zs := "0" + ds;
    if ds != [] {
      var init := ds[..|ds| - 1];
      assert zs[..|zs| - 1] == "0" + init;
      LeadingZero(init);
    }
  }

  /** The percentage captured when `Current charge:\s*(\d+)%` matches at position i. */
  function ChargeAt(s: string, i: nat): Option<nat>
    requires i <= |s|
  {
    if !TextAt(s, i, ChargeLabel) then None
    else
      var d := SkipSpaces(s, i + |ChargeLabel|);
      var e := DigitsEnd(s, d);
      if d < e < |s| && s[e] == '%' then Some(DecimalValue(s[d..e])) else None
  }

  /** The charge pattern matches at i exactly when the label, whitespace, digits and '%'
      follow one another there, and it captures the value of those digits. */
  lemma ChargeAtMatch(s: string, i: nat)
    requires i <= |s|
    ensures ChargeAt(s, i).Some? <==> exists d: nat, e: nat :: ChargeMatch(s, i, d, e)
    ensures forall d: nat, e: nat :: ChargeMatch(s, i, d, e) ==> ChargeAt(s, i) == Some(DecimalValue(s[d..e]))
  {
    forall d: nat, e: nat | ChargeMatch(s, i, d, e) ensures ChargeAt(s, i) == Some(DecimalValue(s[d..e])) {
      ChargeMatchUnique(s, i, d, e);
    }
    if ChargeAt(s, i).Some? {
      var d := SkipSpaces(s, i + |ChargeLabel|);
      var e := DigitsEnd(s, d);
      SliceClasses(s, i + |ChargeLabel|, d);
      SliceClasses(s, d, e);
      assert ChargeMatch(s, i, d, e);
    }
  }

  /** `State:\s*(charging|discharging|not charging)` matches at i with its `\s*` ending at d
      and the word of t after it. */
  predicate StateMatch(s: string, i: nat, d: nat, t: BatteryState) {
    TextAt(s, i, StateLabel) && i + |StateLabel| <= d && TextAt(s, d, StateText(t))
    && AllSpaces(s[i + |StateLabel|..d])
  }

  /** A state match has only one shape: `\s*` cannot take a letter. */
  lemma StateMatchUnique(s: string, i: nat, d: nat, t: BatteryState)
    requires StateMatch(s, i, d, t)
    ensures d == SkipSpaces(s, i + |StateLabel|)
  {
    var n := |StateLabel|;
    SliceClasses(s, i + n, d);
    assert s[d] == StateText(t)[0];
    SkipSpacesUnique(s, i + n, d);
  }

  /** The state captured when `State:\s*(charging|discharging|not charging)` matches at
      position i. */
  function StateAt(s: string, i: nat): Option<BatteryState>
    requires i <= |s|
  {
    if !TextAt(s, i, StateLabel) then None
    else
      StateWordAt(s, SkipSpaces(s, i + |StateLabel|))
  }

  /** The state pattern matches at i exactly when the label, whitespace and a state word
      follow one another there, and it captures that word's state. */
  lemma StateAtMatch(s: string, i: nat)
    requires i <= |s|
    ensures StateAt(s, i).Some? <==> exists d: nat, t :: StateMatch(s, i, d, t)
    ensures forall d: nat, t :: StateMatch(s, i, d, t) ==> StateAt(s, i) == Some(t)
  {
    forall d: nat, t | StateMatch(s, i, d, t) ensures StateAt(s, i) == Some(t) {
      StateMatchUnique(s, i, d, t);
      StateWordAtMatch(s, d);
    }
    if StateAt(s, i).Some? {
      var d := SkipSpaces(s, i + |StateLabel|);
      SliceClasses(s, i + |StateLabel|, d);
      StateWordAtMatch(s, d);
      assert StateMatch(s, i, d, StateAt(s, i).value);
    }
  }

  /** The alternation `(charging|discharging|not charging)` at position d, tried in that order. */
  function StateWordAt(s: string, d: nat): Option<BatteryState> {
    if TextAt(s, d, StateText(Charging)) then Some(Charging)
    else if TextAt(s, d, StateText(Discharging)) then Some(Discharging)
    else if TextAt(s, d, StateText(NotCharging)) then Some(NotCharging)
    else None
  }

  /** The three state words begin with different letters, so the alternation yields the
      word present at d, and nothing when none is. */
  lemma StateWordAtMatch(s: string, d: nat)
    ensures StateWordAt(s, d).Some? ==> TextAt(s, d, StateText(StateWordAt(s, d).value))
    ensures forall t :: TextAt(s, d, StateText(t)) ==> StateWordAt(s, d) == Some(t)
  {
    forall t | TextAt(s, d, StateText(t)) ensures StateWordAt(s, d) == Some(t) {
      assert s[d] == StateText(t)[0];
    }
  }

  /** The two patterns of the status parser. */
  datatype Pattern = ChargePattern | StatePattern

  predicate MatchesAt(p: Pattern, s: string, i: nat)
    requires i <= |s|
  {
    match p
    case ChargePattern => ChargeAt(s, i).Some?
    case StatePattern => StateAt(s, i).Some?
  }

  /** `re.search` from position `from`: the leftmost position where p matches. */
  function Search(p: Pattern, s: string, from: nat): (r: Option<nat>)
    requires from <= |s|
    ensures r.Some? ==> from <= r.value <= |s| && MatchesAt(p, s, r.value)
    ensures forall j :: from <= j <= |s| && (r.None? || j < r.value) ==> !MatchesAt(p, s, j)
    decreases |s| - from
  {
    if MatchesAt(p, s, from) then Some(from)
    else if from == |s| then None
    else Search(p, s, from + 1)
  }

  /** The percentage of the first match of the charge pattern, if any. */
  function ParseCharge(s: string): (r: Option<nat>)
    ensures r.None? <==> forall j :: 0 <= j <= |s| ==> ChargeAt(s, j).None?
    ensures r.Some? ==> exists k :: 0 <= k <= |s| && ChargeAt(s, k) == r
                                   && forall j :: 0 <= j < k ==> ChargeAt(s, j).None?
  {
    var m := Search(ChargePattern, s, 0);
    assert forall j :: 0 <= j <= |s| && (m.None? || j < m.value) ==> !MatchesAt(ChargePattern, s, j);
    assert forall j :: 0 <= j <= |s| && !MatchesAt(ChargePattern, s, j) ==> ChargeAt(s, j).None?;
    match m
    case None => None
    case Some(k) => ChargeAt(s, k)
  }

  /** The state of the first match of the state pattern, if any. */
  function ParseState(s: string): (r: Option<BatteryState>)
    ensures r.None? <==> forall j :: 0 <= j <= |s| ==> StateAt(s, j).None?
    ensures r.Some? ==> exists k :: 0 <= k <= |s| && StateAt(s, k) == r
                                   && forall j :: 0 <= j < k ==> StateAt(s, j).None?
  {
    var m := Search(StatePattern, s, 0);
    assert forall j :: 0 <= j <= |s| && (m.None? || j < m.value) ==> !MatchesAt(StatePattern, s, j);
    assert forall j :: 0 <= j <= |s| && !MatchesAt(StatePattern, s, j) ==> StateAt(s, j).None?;
    match m
    case None => None
    case Some(k) => StateAt(s, k)
  }

  /** `get_current_batt_info` once the status command has answered with
      (output, succeeded): a failed command or an empty output gives no reading. */
  function BattInfo(output: Option<string>, succeeded: bool): (r: Reading)
    ensures !succeeded || output == None || output == Some("") ==> r == Reading(None, None)
  {
    if !succeeded || output == None || output == Some("") then Reading(None, None)
    else Reading(ParseCharge(output.value), ParseState(output.value))
  }

  /** `get_current_batt_info`: issues the status command and reads its answer. */
  method GetCurrentBattInfo(port: Port) returns (reading: Reading, ghost status: Invocation)
    modifies port
    ensures port.log == old(port.log) + [status]
    ensures status.cmd == Status && reading == BattInfo(status.output, status.succeeded)
  {
    var output, succeeded := port.Run(Status);
    status := Invocation(Status, output, succeeded);
    reading := BattInfo(output, succeeded);
  }

  // ---------------------------------------------------------------------------
  // Serialising a reading, and the round trip through the parser

  /** "Current charge:" followed by the given whitespace, digits and "%". */
  function FormatCharge(ws: string, digits: string): string {
    ChargeLabel + ws + digits + "%"
  }

  /** "State:" followed by the given whitespace and the state's word. */
  function FormatState(ws: string, t: BatteryState): string {
    StateLabel + ws + StateText(t)
  }

  lemma SkipSpacesUnique(s: string, i: nat, k: nat)
    requires i <= k <= |s|
    requires forall j :: i <= j < k ==> IsSpace(s[j])
    requires k == |s| || !IsSpace(s[k])
    ensures SkipSpaces(s, i) == k
  {
  }

  lemma DigitsEndUnique(s: string, i: nat, k: nat)
    requires i <= k <= |s|
    requires forall j :: i <= j < k ==> IsDigit(s[j])
    requires k == |s| || !IsDigit(s[k])
    ensures DigitsEnd(s, i) == k
  {
  }

  /** Appending text that starts with a non-space does not lengthen a run of spaces. */
  lemma SkipSpacesExtend(p: string, r: string, i: nat)
    requires i <= |p|
    requires r != [] && !IsSpace(r[0])
    ensures SkipSpaces(p + r, i) == SkipSpaces(p, i)
  {
    var k := SkipSpaces(p, i);
    SkipSpacesUnique(p + r, i, k);
  }

  /** Appending text that starts with a non-digit does not lengthen a run of digits. */
  lemma DigitsEndExtend(p: string, r: string, i: nat)
    requires i <= |p|
    requires r != [] && !IsDigit(r[0])
    ensures DigitsEnd(p + r, i) == DigitsEnd(p, i)
  {
    var k := DigitsEnd(p, i);
    DigitsEndUnique(p + r, i, k);
  }

  /** An occurrence of w found in p + r either lies in p or reaches r's first character. */
  lemma TextAtExtend(p: string, r: string, i: nat, w: string)
    requires i <= |p|
    ensures i + |w| <= |p| ==> (TextAt(p + r, i, w) <==> TextAt(p, i, w))
    ensures TextAt(p + r, i, w) && |p| < i + |w| ==> r != [] && w[|p| - i] == r[0]
  {
    if i + |w| <= |p| {
      assert (p + r)[i..i + |w|] == p[i..i + |w|];
    }
    if TextAt(p + r, i, w) && |p| < i + |w| {
      assert (p + r)[|p|] == w[|p| - i];
    }
  }

  /** A charge match that starts inside p is unaffected by appending text that starts
      with 'C': the label has no other 'C' and no other part of the pattern can take it. */
  lemma ChargeAtExtend(p: string, r: string, j: nat)
    requires j < |p|
    requires r != [] && r[0] == 'C'
    ensures ChargeAt(p + r, j) == ChargeAt(p, j)
  {
    var s := p + r;
    var n := |ChargeLabel|;
    TextAtExtend(p, r, j, ChargeLabel);
    if j + n <= |p| {
      if TextAt(p, j, ChargeLabel) {
        SkipSpacesExtend(p, r, j + n);
        var d := SkipSpaces(p, j + n);
        DigitsEndExtend(p, r, d);
        var e := DigitsEnd(p, d);
        assert s[d..e] == p[d..e];
        assert e == |p| ==> s[e] == 'C';
      }
    } else {
      assert ChargeLabel[|p| - j] != 'C';
    }
  }

  /** No state word contains an 'S', so appending text that starts with 'S' changes no
      alternation that starts inside p. */
  lemma StateWordAtExtend(p: string, r: string, d: nat)
    requires d <= |p|
    requires r != [] && r[0] == 'S'
    ensures StateWordAt(p + r, d) == StateWordAt(p, d)
  {
    StateTextExtend(p, r, d, Charging);
    StateTextExtend(p, r, d, Discharging);
    StateTextExtend(p, r, d, NotCharging);
  }

  lemma StateTextExtend(p: string, r: string, d: nat, t: BatteryState)
    requires d <= |p|
    requires r != [] && r[0] == 'S'
    ensures TextAt(p + r, d, StateText(t)) <==> TextAt(p, d, StateText(t))
  {
    TextAtExtend(p, r, d, StateText(t));
    assert forall k :: 0 <= k < |StateText(t)| ==> StateText(t)[k] != 'S';
  }

  /** The same for a state match and appended text that starts with 'S'. */
  lemma StateAtExtend(p: string, r: string, j: nat)
    requires j < |p|
    requires r != [] && r[0] == 'S'
    ensures StateAt(p + r, j) == StateAt(p, j)
  {
    var s := p + r;
    var n := |StateLabel|;
    TextAtExtend(p, r, j, StateLabel);
    if j + n <= |p| {
      if TextAt(p, j, StateLabel) {
        SkipSpacesExtend(p, r, j + n);
        StateWordAtExtend(p, r, SkipSpaces(p, j + n));
      }
    } else {
      assert StateLabel[|p| - j] != 'S';
    }
  }

  lemma TextAtConcat(a: string, b: string, c: string)
    ensures TextAt(a + b + c, |a|, b)
  {
    assert (a + b + c)[|a|..|a| + |b|] == b;
  }

  /** `\s*` consumes exactly the whitespace ws when a non-space follows it. */
  lemma SkipOverSpaces(a: string, ws: string, c: string)
    requires AllSpaces(ws)
    requires c != [] && !IsSpace(c[0])
    ensures SkipSpaces(a + ws + c, |a|) == |a| + |ws|
  {
    var s := a + ws + c;
    assert forall j :: |a| <= j < |a| + |ws| ==> s[j] == ws[j - |a|];
    assert s[|a| + |ws|] == c[0];
    SkipSpacesUnique(s, |a|, |a| + |ws|);
  }

  /** `\d+` consumes exactly the digits ds when a non-digit follows them. */
  lemma SkipOverDigits(a: string, ds: string, c: string)
    requires AllDigits(ds)
    requires c != [] && !IsDigit(c[0])
    ensures DigitsEnd(a + ds + c, |a|) == |a| + |ds|
  {
    var s := a + ds + c;
    assert forall j :: |a| <= j < |a| + |ds| ==> s[j] == ds[j - |a|];
    assert s[|a| + |ds|] == c[0];
    DigitsEndUnique(s, |a|, |a| + |ds|);
  }

  /** Where the parts of a formatted charge lie in prefix + FormatCharge(ws, digits) + suffix. */
  lemma FormattedChargeLayout(s: string, prefix: string, ws: string, digits: string, suffix: string)
    requires s == prefix + FormatCharge(ws, digits) + suffix
    requires AllSpaces(ws)
    requires digits != [] && AllDigits(digits)
    ensures TextAt(s, |prefix|, ChargeLabel)
    ensures SkipSpaces(s, |prefix| + |ChargeLabel|) == |prefix| + |ChargeLabel| + |ws|
  {
    assert s == prefix + ChargeLabel + (ws + digits + "%" + suffix);
    TextAtConcat(prefix, ChargeLabel, ws + digits + "%" + suffix);
    assert s == (prefix + ChargeLabel) + ws + (digits + "%" + suffix);
    SkipOverSpaces(prefix + ChargeLabel, ws, digits + "%" + suffix);
  }

  /** A formatted charge, cut where its digits begin and end. */
  lemma FormattedChargeSplit(s: string, prefix: string, ws: string, digits: string, suffix: string)
    requires s == prefix + FormatCharge(ws, digits) + suffix
    ensures s == (prefix + ChargeLabel + ws) + digits + ("%" + suffix)
  {
  }

  /** Digits followed by '%': `\d+` stops right before the '%'. */
  lemma DigitsBeforePercent(s: string, a: string, digits: string, c: string)
    requires s == a + digits + c
    requires AllDigits(digits) && c != [] && c[0] == '%'
    ensures |a| + |digits| < |s| && DigitsEnd(s, |a|) == |a| + |digits|
    ensures s[|a|..|a| + |digits|] == digits && s[|a| + |digits|] == '%'
  {
    SkipOverDigits(a, digits, c);
    TextAtConcat(a, digits, c);
    assert s[|a| + |digits|] == c[0];
  }

  lemma FormattedDigitsLayout(s: string, prefix: string, ws: string, digits: string, suffix: string)
    requires s == prefix + FormatCharge(ws, digits) + suffix
    requires digits != [] && AllDigits(digits)
    ensures var d := |prefix| + |ChargeLabel| + |ws|;
            d + |digits| < |s| && DigitsEnd(s, d) == d + |digits|
            && s[d..d + |digits|] == digits && s[d + |digits|] == '%'
  {
    FormattedChargeSplit(s, prefix, ws, digits, suffix);
    DigitsBeforePercent(s, prefix + ChargeLabel + ws, digits, "%" + suffix);
  }

  /** The charge pattern matches a formatted charge, capturing its digits' value. */
  lemma ChargeAtFormatted(s: string, prefix: string, ws: string, digits: string, suffix: string)
    requires s == prefix + FormatCharge(ws, digits) + suffix
    requires AllSpaces(ws)
    requires digits != [] && AllDigits(digits)
    ensures ChargeAt(s, |prefix|) == Some(DecimalValue(digits))
  {
    var d := |prefix| + |ChargeLabel| + |ws|;
    FormattedChargeLayout(s, prefix, ws, digits, suffix);
    FormattedDigitsLayout(s, prefix, ws, digits, suffix);
    ChargeAtOf(s, |prefix|, d, digits);
  }

  /** The charge pattern's match at i, from where its whitespace ends and the digits it finds. */
  lemma ChargeAtOf(s: string, i: nat, d: nat, digits: string)
    requires i <= |s| && TextAt(s, i, ChargeLabel)
    requires SkipSpaces(s, i + |ChargeLabel|) == d
    requires digits != [] && d + |digits| < |s| && DigitsEnd(s, d) == d + |digits|
    requires s[d..d + |digits|] == digits && s[d + |digits|] == '%'
    ensures ChargeAt(s, i) == Some(DecimalValue(digits))
  {
  }


  /** Where the parts of a formatted state lie in prefix + FormatState(ws, t) + suffix. */
  lemma FormattedStateLayout(s: string, prefix: string, ws: string, t: BatteryState, suffix: string)
    requires s == prefix + FormatState(ws, t) + suffix
    requires AllSpaces(ws)
    ensures TextAt(s, |prefix|, StateLabel)
    ensures SkipSpaces(s, |prefix| + |StateLabel|) == |prefix| + |StateLabel| + |ws|
    ensures TextAt(s, |prefix| + |StateLabel| + |ws|, StateText(t))
  {
    var w := StateText(t);
    assert s == prefix + StateLabel + (ws + w + suffix);
    TextAtConcat(prefix, StateLabel, ws + w + suffix);
    assert s == (prefix + StateLabel) + ws + (w + suffix);
    SkipOverSpaces(prefix + StateLabel, ws, w + suffix);
    assert s == (prefix + StateLabel + ws) + w + suffix;
    TextAtConcat(prefix + StateLabel + ws, w, suffix);
  }

  /** The state pattern matches a formatted state, capturing that state. */
  lemma StateAtFormatted(s: string, prefix: string, ws: string, t: BatteryState, suffix: string)
    requires s == prefix + FormatState(ws, t) + suffix
    requires AllSpaces(ws)
    ensures StateAt(s, |prefix|) == Some(t)
  {
    FormattedStateLayout(s, prefix, ws, t, suffix);
    StateAtOf(s, |prefix|, |prefix| + |StateLabel| + |ws|, t);
  }

  /** The state pattern's match at i, from where its whitespace ends and the word it finds. */
  lemma StateAtOf(s: string, i: nat, d: nat, t: BatteryState)
    requires i <= |s| && TextAt(s, i, StateLabel)
    requires SkipSpaces(s, i + |StateLabel|) == d && TextAt(s, d, StateText(t))
    ensures StateAt(s, i) == Some(t)
  {
    StateWordAtMatch(s, d);
  }

  /** Round trip for the percentage: whatever surrounds it, a formatted charge is read
      back from the first place it occurs. */
  lemma {:induction false} ChargeRoundTrip(prefix: string, ws: string, digits: string, suffix: string)
    requires ParseCharge(prefix) == None
    requires AllSpaces(ws)
    requires digits != [] && AllDigits(digits)
    ensures ParseCharge(prefix + FormatCharge(ws, digits) + suffix) == Some(DecimalValue(digits))
  {
    var rest := FormatCharge(ws, digits) + suffix;
    var s := prefix + FormatCharge(ws, digits) + suffix;
    assert s == prefix + rest;
    assert rest[0] == 'C';
    forall j | 0 <= j < |prefix| ensures ChargeAt(s, j).None? {
      ChargeAtExtend(prefix, rest, j);
    }
    ChargeAtFormatted(s, prefix, ws, digits, suffix);
  }

  /** Round trip for the state: a formatted state is read back from the first place it occurs. */
  lemma {:induction false} StateRoundTrip(prefix: string, ws: string, t: BatteryState, suffix: string)
    requires ParseState(prefix) == None
    requires AllSpaces(ws)
    ensures ParseState(prefix + FormatState(ws, t) + suffix) == Some(t)
  {
    var rest := FormatState(ws, t) + suffix;
    var s := prefix + FormatState(ws, t) + suffix;
    assert s == prefix + rest;
    assert rest[0] == 'S';
    forall j | 0 <= j < |prefix| ensures StateAt(s, j).None? {
      StateAtExtend(prefix, rest, j);
    }
    StateAtFormatted(s, prefix, ws, t, suffix);
  }

  /** Round trip for a whole status text: when the text contains a formatted charge of n and
      a formatted state t, each the first of its kind, the reading is (n, t). */
  lemma StatusRoundTrip(text: string, p1: string, ws1: string, n: nat, r1: string,
                        p2: string, ws2: string, t: BatteryState, r2: string)
    requires text == p1 + FormatCharge(ws1, DecimalDigits(n)) + r1 && ParseCharge(p1) == None
    requires text == p2 + FormatState(ws2, t) + r2 && ParseState(p2) == None
    requires AllSpaces(ws1) && AllSpaces(ws2)
    ensures BattInfo(Some(text), true) == Reading(Some(n), Some(t))
  {
    ChargeRoundTrip(p1, ws1, DecimalDigits(n), r1);
    StateRoundTrip(p2, ws2, t, r2);
  }
}
