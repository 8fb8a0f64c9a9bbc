/** Expanding `var()` in a stylesheet value by text substitution, under a depth
    budget. What the budget allows is counted in rounds of reading. */
module VarExpansion {
  import opened Wrappers
  import opened Text

  const VAR := "var("
  const BUDGET := 32
  const ROUNDS := BUDGET + 1

  datatype VarError = TooDeep | Unclosed

  type Scope = map<string, string>

  // ---- Finding the first call -----------------------------------------------

  predicate SpellsVarAt(s: string, i: int) {
    0 <= i && i + 4 <= |s| && s[i] == 'v' && s[i + 1] == 'a' && s[i + 2] == 'r' && s[i + 3] == '('
  }

  ghost predicate SpellsVar(s: string) {
    exists i :: SpellsVarAt(s, i)
  }

  /** Where `var(` first occurs. */
  function FindVar(s: string): (r: Option<nat>)
    ensures r.Some? ==> SpellsVarAt(s, r.value) && forall k :: 0 <= k < r.value ==> !SpellsVarAt(s, k)
    ensures r.None? ==> !SpellsVar(s)
  {
    FindVarFrom(s, 0)
  }

  function FindVarFrom(s: string, from: nat): (r: Option<nat>)
    requires forall k :: 0 <= k < from ==> !SpellsVarAt(s, k)
    ensures r.Some? ==> SpellsVarAt(s, r.value) && forall k :: 0 <= k < r.value ==> !SpellsVarAt(s, k)
    ensures r.None? ==> !SpellsVar(s)
    decreases |s| - from
  {
    if from >= |s| then None
    else if SpellsVarAt(s, from) then Some(from)
    else FindVarFrom(s, from + 1)
  }

  function Nesting(c: char): int {
    if c == '(' then 1 else if c == ')' then -1 else 0
  }

  /** How many more parentheses a text opens than it closes. */
  function Depth(s: string): int {
    if s == "" then 0 else Depth(s[..|s| - 1]) + Nesting(s[|s| - 1])
  }

  /** Where the parentheses open at `depth` before `j` are all closed. */
  function CloseFrom(s: string, j: nat, depth: int): (r: Option<nat>)
    requires j <= |s|
    ensures r.Some? ==> j <= r.value < |s|
    decreases |s| - j
  {
    if j == |s| then None
    else if depth + Nesting(s[j]) == 0 then Some(j)
    else CloseFrom(s, j + 1, depth + Nesting(s[j]))
  }

  /** What stands open at `j` of what was opened since `i`. */
  function DepthOf(s: string, i: nat, j: nat): int
    requires i <= j <= |s|
  {
    Depth(s[i..j])
  }

  /** The first place at which everything opened since `start` is closed, if
      there is one. */
  method FindClose(s: string, start: nat) returns (r: Option<nat>)
    requires start <= |s|
    ensures r.Some? ==> start <= r.value < |s| && DepthOf(s, start, r.value + 1) == 0
    ensures forall k :: start < k <= r.GetOr(|s|) ==> DepthOf(s, start, k) != 0
    ensures r == CloseFrom(s, start, 0)
  {
    hide CloseFrom, DepthOf;
    var d := 0;
    NothingOpen(s, start);
    for j := start to |s|
      invariant d == DepthOf(s, start, j)
      invariant forall k :: start < k <= j ==> DepthOf(s, start, k) != 0
      invariant CloseFrom(s, start, 0) == CloseFrom(s, j, d)
    {
      DepthStep(s, start, j);
      CloseStep(s, j, d);
      d := d + Nesting(s[j]);
      if d == 0 {
        return Some(j);
      }
    }
    CloseStep(s, |s|, d);
    r := None;
  }

  lemma NothingOpen(s: string, start: nat)
    requires start <= |s|
    ensures DepthOf(s, start, start) == 0
  {
  }

  lemma DepthStep(s: string, start: nat, j: nat)
    requires start <= j < |s|
    ensures DepthOf(s, start, j + 1) == DepthOf(s, start, j) + Nesting(s[j])
  {
    assert s[start..j + 1][..j - start] == s[start..j];
  }

  lemma CloseStep(s: string, j: nat, depth: int)
    requires j <= |s|
    ensures CloseFrom(s, j, depth) ==
            if j == |s| then None
            else if depth + Nesting(s[j]) == 0 then Some(j)
            else CloseFrom(s, j + 1, depth + Nesting(s[j]))
  {
  }

  datatype Cut = Plain | Open | Call(pre: string, inner: string, rest: string)

  /** A value cut at its first `var()`. */
  function CutAtVar(value: string): (c: Cut)
    ensures c.Call? ==> value == c.pre + VAR + c.inner + ")" + c.rest
    ensures c.Plain? <==> !SpellsVar(value)
    ensures c.Call? ==> |c.rest| < |value| && !SpellsVar(c.pre)
  {
    match FindVar(value)
    case None => Plain
    case Some(i) =>
      match CloseFrom(value, i + 3, 0)
      case None => Open
      case Some(j) =>
        CutIsExact(value, i, j);
        Call(value[..i], value[i + 4..j], value[j + 1..])
  }

  lemma CutIsExact(value: string, i: nat, j: nat)
    requires FindVar(value) == Some(i) && CloseFrom(value, i + 3, 0) == Some(j)
    ensures i + 4 <= j < |value|
    ensures value == value[..i] + VAR + value[i + 4..j] + ")" + value[j + 1..]
    ensures !SpellsVar(value[..i])
  {
    ParenOpens(value, i);
    CloseIsParen(value, i + 4, 1);
    hide CloseFrom, FindVarFrom, SpellsVar;
    assert value[i..i + 4] == VAR;
    Pieces(value, i, j);
    NoVarBefore(value, i);
  }

  lemma Pieces(value: string, i: nat, j: nat)
    requires i + 4 <= j < |value| && value[i..i + 4] == VAR && value[j] == ')'
    ensures value == value[..i] + VAR + value[i + 4..j] + ")" + value[j + 1..]
  {
    hide VAR;
  }

  lemma NoVarBefore(value: string, i: nat)
    requires i <= |value| && forall k :: 0 <= k < i ==> !SpellsVarAt(value, k)
    ensures !SpellsVar(value[..i])
  {
    forall k ensures !SpellsVarAt(value[..i], k) {
      assert SpellsVarAt(value[..i], k) ==> SpellsVarAt(value, k);
    }
  }

  lemma ParenOpens(value: string, i: nat)
    requires SpellsVarAt(value, i)
    ensures CloseFrom(value, i + 3, 0) == CloseFrom(value, i + 4, 1)
  {
  }

  lemma {:induction false} CloseIsParen(s: string, j: nat, depth: int)
    requires j <= |s| && depth > 0 && CloseFrom(s, j, depth).Some?
    ensures s[CloseFrom(s, j, depth).value] == ')'
    decreases |s| - j
  {
    if depth + Nesting(s[j]) != 0 {
      CloseIsParen(s, j + 1, depth + Nesting(s[j]));
    }
  }

  // ---- Splitting the arguments ----------------------------------------------

  /** The argument texts between commas at depth zero, edges untrimmed. */
  function RawArgs(s: string): (r: seq<string>)
    ensures |r| >= 1
  {
    if s == "" then [""]
    else
      var front, c := RawArgs(s[..|s| - 1]), s[|s| - 1];
      if c == ',' && Depth(s[..|s| - 1]) == 0 then front + [""]
      else front[|front| - 1 := front[|front| - 1] + [c]]
  }

  function Strip(s: string): string {
    if s == "" then ""
    else if IsSpace(s[0]) then Strip(s[1..])
    else if IsSpace(s[|s| - 1]) then Strip(s[..|s| - 1])
    else s
  }

  function StripAll(parts: seq<string>): (r: seq<string>)
    ensures |r| == |parts| && forall i :: 0 <= i < |parts| ==> r[i] == Strip(parts[i])
  {
    seq(|parts|, i requires 0 <= i < |parts| => Strip(parts[i]))
  }

  method SplitArgs(s: string) returns (out: seq<string>)
    ensures out == StripAll(RawArgs(s))
  {
    hide RawArgs, Strip, Depth, StripAll;
    var depth, cur := 0, "";
    out := [];
    ghost var cut: seq<string> := [];
    NoArgsYet();
    for i := 0 to |s|
      invariant depth == Depth(s[..i])
      invariant RawArgs(s[..i]) == cut + [cur] && out == StripAll(cut)
    {
      var ch := s[i];
      assert s[..i + 1] == s[..i] + [ch];
      RawArgsSnoc(s[..i], ch, cut, cur);
      StripAllSnoc(cut, cur);
      depth := depth + Nesting(ch);
      if ch == ',' && depth == 0 {
        out := out + [Strip(cur)];
        cut := cut + [cur];
        cur := "";
      } else {
        cur := cur + [ch];
      }
    }
    assert s[..|s|] == s;
    StripAllSnoc(cut, cur);
    out := out + [Strip(cur)];
  }

  lemma NoArgsYet()
    ensures RawArgs("") == [""] && Depth("") == 0 && StripAll([]) == []
  {
  }

  lemma RawArgsSnoc(s: string, c: char, cut: seq<string>, cur: string)
    requires RawArgs(s) == cut + [cur]
    ensures Depth(s + [c]) == Depth(s) + Nesting(c)
    ensures RawArgs(s + [c]) ==
            if c == ',' && Depth(s + [c]) == 0 then (cut + [cur]) + [""] else cut + [cur + [c]]
  {
    assert (s + [c])[..|s + [c]| - 1] == s;
    assert (cut + [cur])[|cut| := cur + [c]] == cut + [cur + [c]];
  }

  lemma StripAllSnoc(parts: seq<string>, last: string)
    ensures StripAll(parts + [last]) == StripAll(parts) + [Strip(last)]
  {
    hide Strip;
  }

  function TopCommas(s: string): nat {
    if s == "" then 0
    else TopCommas(s[..|s| - 1]) + if s[|s| - 1] == ',' && Depth(s[..|s| - 1]) == 0 then 1 else 0
  }

  lemma JoinSnoc(parts: seq<string>, separator: string, last: string)
    requires parts != []
    ensures Join(parts + [last], separator) == Join(parts, separator) + separator + last
  {
    assert (parts + [last])[..|parts|] == parts;
  }

  lemma JoinGrow(parts: seq<string>, separator: string, c: char)
    requires parts != []
    ensures Join(parts[|parts| - 1 := parts[|parts| - 1] + [c]], separator) == Join(parts, separator) + [c]
  {
    var grown := parts[|parts| - 1 := parts[|parts| - 1] + [c]];
    assert grown[..|parts| - 1] == parts[..|parts| - 1];
    if |parts| > 1 {
      var a, b := Join(parts[..|parts| - 1], separator) + separator, parts[|parts| - 1];
      assert a + (b + [c]) == (a + b) + [c];
    }
  }

  /** Splitting loses nothing: joined by commas the arguments are the text, and
      there is one more of them than commas at depth zero. */
  lemma {:induction false} SplitLosesNothing(s: string)
    ensures Join(RawArgs(s), ",") == s
    ensures |RawArgs(s)| == TopCommas(s) + 1
  {
    if s != "" {
      var front, c := s[..|s| - 1], s[|s| - 1];
      SplitLosesNothing(front);
      JoinSnoc(RawArgs(front), ",", "");
      JoinGrow(RawArgs(front), ",", c);
      assert s == front + [c];
      assert front + "," + "" == front + ",";
    }
  }

  /** And every cut is at a comma outside all parentheses. */
  lemma {:induction false} CutsAreAtDepthZero(s: string, m: nat)
    requires m + 1 < |RawArgs(s)|
    ensures var k := |Join(RawArgs(s)[..m + 1], ",")|;
            k < |s| && s[k] == ',' && Depth(s[..k]) == 0
  {
    var front, c := s[..|s| - 1], s[|s| - 1];
    var raw, raw' := RawArgs(front), RawArgs(s);
    SplitLosesNothing(front);
    if c == ',' && Depth(front) == 0 && m + 1 == |raw| {
      assert raw'[..m + 1] == raw;
    } else {
      CutsAreAtDepthZero(front, m);
      assert raw'[..m + 1] == raw[..m + 1];
      var k := |Join(raw[..m + 1], ",")|;
      assert front[..k] == s[..k];
    }
  }

  /** No comma stands outside all parentheses, and these balance. */
  ghost predicate OneArgumentLong(s: string) {
    Depth(s) == 0 && forall k :: 0 <= k < |s| && s[k] == ',' ==> Depth(s[..k]) != 0
  }

  /** The depth of a text is its opening parentheses less its closing ones. */
  lemma {:induction false} DepthIs(s: string)
    ensures Depth(s) == multiset(s)['('] as int - multiset(s)[')']
  {
    if s != "" {
      var front, c := s[..|s| - 1], s[|s| - 1];
      assert s == front + [c];
      DepthIs(front);
    }
  }

  lemma {:induction false} DepthAdds(a: string, b: string)
    ensures Depth(a + b) == Depth(a) + Depth(b)
  {
    if b == "" {
      assert a + b == a;
    } else {
      var front, c := b[..|b| - 1], b[|b| - 1];
      assert (a + b)[..|a + b| - 1] == a + front;
      DepthAdds(a, front);
    }
  }

  /** Stripping takes blanks from both ends, and all of them. */
  lemma {:induction false} StripIs(s: string) returns (before: string, after: string)
    ensures s == before + Strip(s) + after
    ensures forall c :: c in before || c in after ==> c in " \n\r\t"
    ensures Strip(s) != "" ==> Strip(s)[0] !in " \n\r\t" && Strip(s)[|Strip(s)| - 1] !in " \n\r\t"
  {
    hide *;
    StripUnfolds(s);
    before, after := "", "";
    if s == "" {
    } else if IsSpace(s[0]) {
      before, after := StripIs(s[1..]);
      BlankIs(s[0]);
      Framed([s[0]], before, Strip(s), after, "");
      assert s == [s[0]] + s[1..];
      before := [s[0]] + before;
    } else if IsSpace(s[|s| - 1]) {
      before, after := StripIs(s[..|s| - 1]);
      BlankIs(s[|s| - 1]);
      Framed("", before, Strip(s), after, [s[|s| - 1]]);
      assert s == s[..|s| - 1] + [s[|s| - 1]];
      after := after + [s[|s| - 1]];
    } else {
      BlankIs(s[0]);
      BlankIs(s[|s| - 1]);
      assert "" + s + "" == s;
    }
  }

  lemma BlankIs(c: char)
    ensures IsSpace(c) <==> c in " \n\r\t"
  {
  }

  lemma Framed(a: string, before: string, s: string, after: string, b: string)
    ensures a + (before + s + after) + b == (a + before) + s + (after + b)
    ensures a == "" ==> a + before == before
    ensures b == "" ==> after + b == after
  {
  }

  lemma StripUnfolds(s: string)
    ensures Strip(s) ==
            if s == "" then ""
            else if IsSpace(s[0]) then Strip(s[1..])
            else if IsSpace(s[|s| - 1]) then Strip(s[..|s| - 1])
            else s
  {
  }

  lemma {:induction false} NoTopCommas(s: string)
    requires forall k :: 0 <= k < |s| && s[k] == ',' ==> Depth(s[..k]) != 0
    ensures RawArgs(s) == [s]
  {
    hide Depth;
    if s == "" {
      NoArgsYet();
    } else {
      var front, c := s[..|s| - 1], s[|s| - 1];
      assert forall k :: 0 <= k < |front| ==> front[..k] == s[..k];
      NoTopCommas(front);
      assert s == front + [c];
      assert [front][0 := front + [c]] == [front + [c]];
    }
  }

  /** The first argument ends at the first comma outside all parentheses, and
      the others are those of the text after it. */
  lemma {:induction false} RawArgsAfter(first: string, rest: string)
    requires OneArgumentLong(first)
    ensures RawArgs(first + "," + rest) == [first] + RawArgs(rest)
  {
    hide RawArgs, Depth;
    if rest == "" {
      NoArgsYet();
      NoTopCommas(first);
      RawArgsSnoc(first, ',', [], first);
      assert first + "," + "" == first + [','];
      assert Depth(first + [',']) == 0;
    } else {
      var front, c := rest[..|rest| - 1], rest[|rest| - 1];
      assert rest == front + [c];
      RawArgsAfter(first, front);
      var args := RawArgs(front);
      var cut, cur := args[..|args| - 1], args[|args| - 1];
      assert args == cut + [cur];
      RawArgsSnoc(front, c, cut, cur);
      assert [first] + args == ([first] + cut) + [cur];
      RawArgsSnoc(first + "," + front, c, [first] + cut, cur);
      assert first + "," + front + [c] == first + "," + rest;
      DepthAdds(first + ",", rest);
      DepthAdds(first, ",");
      CommaIsLevel();
      assert first + "," + rest == (first + ",") + rest;
    }
  }

  lemma CommaIsLevel()
    ensures Depth(",") == 0
  {
  }

  // ---- Resolving ------------------------------------------------------------

  function NameOf(inner: string): string {
    Strip(RawArgs(inner)[0])
  }

  function FallbackOf(inner: string): Option<string> {
    var args := StripAll(RawArgs(inner));
    if |args| > 1 then Some(Join(args[1..], ", ")) else None
  }

  function UnresolvedMark(name: string): string {
    "<UNRESOLVED " + name + ">"
  }

  /** The text standing behind a call before it is itself resolved, or the mark
      of a name with neither value nor fallback. */
  function Behind(scope: Scope, inner: string): (r: Result<string, string>)
  {
    if NameOf(inner) in scope then Success(scope[NameOf(inner)])
    else if FallbackOf(inner).Some? then Success(FallbackOf(inner).value)
    else Failure(UnresolvedMark(NameOf(inner)))
  }

  /** What stands behind a call: the variable's value if its name, up to the
      first comma outside all parentheses, is in scope; otherwise everything
      after that comma, or without one a mark with the name. */
  lemma BehindIs(scope: Scope, first: string, rest: string)
    requires OneArgumentLong(first)
    ensures Strip(first) in scope ==> Behind(scope, first) == Behind(scope, first + "," + rest)
                                      == Success(scope[Strip(first)])
    ensures Strip(first) !in scope ==>
              && Behind(scope, first) == Failure("<UNRESOLVED " + Strip(first) + ">")
              && Behind(scope, first + "," + rest) == Success(Join(StripAll(RawArgs(rest)), ", "))
  {
    hide Strip, RawArgs, Join, OneArgumentLong;
    RawArgsAfter(first, rest);
    OneArgumentOnly(first);
    assert RawArgs(first + "," + rest)[0] == first;
    assert StripAll([first] + RawArgs(rest))[1..] == StripAll(RawArgs(rest));
  }

  lemma OneArgumentOnly(first: string)
    requires OneArgumentLong(first)
    ensures RawArgs(first) == [first]
  {
    NoTopCommas(first);
  }

  /** The code's answer when `rounds` rounds are left: splice in the resolved
      substitute and start over on the whole text, with one round less. */
  function Resolved(value: string, scope: Scope, rounds: nat): Result<string, VarError>
    decreases rounds
  {
    if rounds == 0 then Failure(TooDeep)
    else
      match CutAtVar(value)
      case Plain => Success(value)
      case Open => Failure(Unclosed)
      case Call(pre, inner, rest) =>
        match Behind(scope, inner)
        case Failure(mark) => Resolved(pre + mark + rest, scope, rounds - 1)
        case Success(text) =>
          var sub :- Resolved(text, scope, rounds - 1);
          Resolved(pre + sub + rest, scope, rounds - 1)
  }

  /** The rounds left at a depth of the recursion. */
  function RoundsLeft(depth: nat): nat {
    if depth > BUDGET then 0 else ROUNDS - depth
  }

  method Resolve(value: string, scope: Scope, depth: nat) returns (r: Result<string, VarError>)
    ensures r == Resolved(value, scope, RoundsLeft(depth))
    ensures depth == 0 ==> r == Resolved(value, scope, 33)
    ensures depth > 32 ==> r == Failure(TooDeep)
    decreases RoundsLeft(depth)
  {
    hide FindVar, CloseFrom, RawArgs, Strip, Join, Resolved, StripAll, CutAtVar, SpellsVar, SpellsVarAt;
    ResolvedUnfolds(value, scope, RoundsLeft(depth));
    if depth > BUDGET {
      return Failure(TooDeep);
    }
    var i := FindVar(value);
    NoCut(value);
    if i.None? {
      return Success(value);
    }
    var j := FindClose(value, i.value + 3);
    if j.None? {
      return Failure(Unclosed);
    }
    CutIsExact(value, i.value, j.value);
    CutFromPlaces(value, i.value, j.value);
    var args := SplitArgs(value[i.value + 4..j.value]);
    var name := args[0];
    var sub: string;
    if name in scope {
      var inner := Resolve(scope[name], scope, depth + 1);
      if inner.Failure? {
        return inner;
      }
      sub := inner.value;
    } else if |args| > 1 {
      var inner := Resolve(Join(args[1..], ", "), scope, depth + 1);
      if inner.Failure? {
        return inner;
      }
      sub := inner.value;
    } else {
      sub := UnresolvedMark(name);
    }
    r := Resolve(value[..i.value] + sub + value[j.value + 1..], scope, depth + 1);
  }

  /** The text the next round reads, once the call has its substitute. */
  function Spliced(c: Cut, sub: string): string
    requires c.Call?
  {
    c.pre + sub + c.rest
  }

  lemma NoCut(value: string)
    ensures FindVar(value).None? ==> CutAtVar(value).Plain?
    ensures FindVar(value).Some? ==> SpellsVarAt(value, FindVar(value).value) && FindVar(value).value + 4 <= |value|
    ensures FindVar(value).Some? && CloseFrom(value, FindVar(value).value + 3, 0).None? ==> CutAtVar(value).Open?
  {
    hide FindVarFrom, CloseFrom;
  }

  lemma ResolvedUnfolds(value: string, scope: Scope, rounds: nat)
    ensures rounds == 0 ==> Resolved(value, scope, rounds) == Failure(TooDeep)
    ensures rounds > 0 && CutAtVar(value).Plain? ==> Resolved(value, scope, rounds) == Success(value)
    ensures rounds > 0 && CutAtVar(value).Open? ==> Resolved(value, scope, rounds) == Failure(Unclosed)
    ensures rounds > 0 && CutAtVar(value).Call? ==>
              var c := CutAtVar(value);
              var b := Behind(scope, c.inner);
              && (b.Failure? ==> Resolved(value, scope, rounds) == Resolved(Spliced(c, b.error), scope, rounds - 1))
              && (b.Success? ==>
                    var sub := Resolved(b.value, scope, rounds - 1);
                    && (sub.Failure? ==> Resolved(value, scope, rounds) == Failure(sub.error))
                    && (sub.Success? ==>
                          Resolved(value, scope, rounds) == Resolved(Spliced(c, sub.value), scope, rounds - 1)))
  {
    hide CutAtVar, Behind;
  }

  /** Whatever the scope, a returned text spells no `var(`. */
  lemma {:induction false} ResolvedSpellsNoVar(value: string, scope: Scope, rounds: nat)
    requires Resolved(value, scope, rounds).Success?
    ensures !SpellsVar(Resolved(value, scope, rounds).value)
    decreases rounds
  {
    hide *;
    ResolvedUnfolds(value, scope, rounds);
    var c := CutAtVar(value);
    if c.Call? {
      var b := Behind(scope, c.inner);
      ResolvedSpellsNoVar(Spliced(c, if b.Failure? then b.error else Resolved(b.value, scope, rounds - 1).value),
          scope, rounds - 1);
    }
  }

  /** A larger budget never changes an answer. */
  lemma {:induction false} BudgetOnlyLimits(value: string, scope: Scope, rounds: nat, rounds': nat)
    requires rounds <= rounds' && Resolved(value, scope, rounds).Success?
    ensures Resolved(value, scope, rounds') == Resolved(value, scope, rounds)
    decreases rounds
  {
    hide *;
    ResolvedUnfolds(value, scope, rounds);
    ResolvedUnfolds(value, scope, rounds');
    var c := CutAtVar(value);
    if c.Call? {
      var b := Behind(scope, c.inner);
      if b.Failure? {
        BudgetOnlyLimits(Spliced(c, b.error), scope, rounds - 1, rounds' - 1);
      } else {
        BudgetOnlyLimits(b.value, scope, rounds - 1, rounds' - 1);
        BudgetOnlyLimits(Spliced(c, Resolved(b.value, scope, rounds - 1).value), scope, rounds - 1, rounds' - 1);
      }
    }
  }

  /** The value's first call is to one of the names. */
  predicate CallsFirst(value: string, names: set<string>) {
    CutAtVar(value).Call? && NameOf(CutAtVar(value).inner) in names
  }

  /** Names whose values keep calling each other never return. */
  lemma {:induction false} CyclesNeverReturn(value: string, scope: Scope, names: set<string>, rounds: nat)
    requires forall n :: n in names ==> n in scope && CallsFirst(scope[n], names)
    requires CallsFirst(value, names)
    ensures Resolved(value, scope, rounds) == Failure(TooDeep)
    decreases rounds
  {
    hide Resolved, CutAtVar, NameOf, FallbackOf;
    ResolvedUnfolds(value, scope, rounds);
    if rounds > 0 {
      CyclesNeverReturn(scope[NameOf(CutAtVar(value).inner)], scope, names, rounds - 1);
    }
  }

  // ---- Structural substitution ----------------------------------------------

  /** The meaning section 3 of CSS Custom Properties for Cascading Variables
      Level 1 gives: each call is replaced by its expanded substitute, and what
      was substituted is never read again. `rounds` only bounds how deep the
      reading goes; a value has a meaning if any bound suffices. */
  function Structural(value: string, scope: Scope, rounds: nat): Result<string, VarError>
    decreases rounds
  {
    if rounds == 0 then Failure(TooDeep)
    else
      match CutAtVar(value)
      case Plain => Success(value)
      case Open => Failure(Unclosed)
      case Call(pre, inner, rest) =>
        match Behind(scope, inner)
        case Failure(mark) =>
          var after :- Structural(rest, scope, rounds - 1);
          Success(pre + mark + after)
        case Success(text) =>
          var sub :- Structural(text, scope, rounds - 1);
          var after :- Structural(rest, scope, rounds - 1);
          Success(pre + sub + after)
  }

  lemma StructuralUnfolds(value: string, scope: Scope, rounds: nat)
    ensures rounds == 0 ==> Structural(value, scope, rounds) == Failure(TooDeep)
    ensures rounds > 0 && CutAtVar(value).Plain? ==> Structural(value, scope, rounds) == Success(value)
    ensures rounds > 0 && CutAtVar(value).Open? ==> Structural(value, scope, rounds) == Failure(Unclosed)
    ensures rounds > 0 && CutAtVar(value).Call? ==>
              var c := CutAtVar(value);
              var b, after := Behind(scope, c.inner), Structural(c.rest, scope, rounds - 1);
              && (b.Failure? ==> Structural(value, scope, rounds) == Prepended(c.pre + b.error, after))
              && (b.Success? ==>
                    var sub := Structural(b.value, scope, rounds - 1);
                    && (sub.Failure? ==> Structural(value, scope, rounds) == Failure(sub.error))
                    && (sub.Success? ==> Structural(value, scope, rounds) == Prepended(c.pre + sub.value, after)))
  {
    hide CutAtVar, Behind;
  }

  /** A result with text put in front of it. */
  function Prepended(before: string, r: Result<string, VarError>): Result<string, VarError> {
    match r
    case Failure(e) => Failure(e)
    case Success(text) => Success(before + text)
  }

  // ---- How many rounds a meaning takes --------------------------------------

  function Max(a: nat, b: nat): nat {
    if a < b then b else a
  }

  /** A plain text takes one round. A call takes one more than the longer of its
      substitute and the text after it: what stands side by side is read one
      round after another. */
  function Rounds(value: string, scope: Scope, rounds: nat): nat
    decreases rounds
  {
    if rounds == 0 then 0
    else
      match CutAtVar(value)
      case Call(_, inner, rest) =>
        var substitute := match Behind(scope, inner)
          case Failure(_) => 0
          case Success(text) => Rounds(text, scope, rounds - 1);
        1 + Max(substitute, Rounds(rest, scope, rounds - 1))
      case _ => 1
  }

  lemma CountUnfolds(value: string, scope: Scope, rounds: nat)
    requires rounds > 0
    ensures !CutAtVar(value).Call? ==> Rounds(value, scope, rounds) == 1
    ensures CutAtVar(value).Call? ==>
              var c := CutAtVar(value);
              var b := Behind(scope, c.inner);
              Rounds(value, scope, rounds)
              == 1 + Max(if b.Success? then Rounds(b.value, scope, rounds - 1) else 0,
                         Rounds(c.rest, scope, rounds - 1))
  {
    hide CutAtVar, Behind;
  }

  lemma RoundsUnfolds(value: string, scope: Scope, rounds: nat)
    requires Structural(value, scope, rounds).Success?
    ensures rounds > 0 && !CutAtVar(value).Open? && Rounds(value, scope, rounds) > 0
    ensures CutAtVar(value).Plain? ==>
              Rounds(value, scope, rounds) == 1 && Structural(value, scope, rounds) == Success(value)
    ensures CutAtVar(value).Call? ==>
              var c := CutAtVar(value);
              var b, rest := Behind(scope, c.inner), Structural(c.rest, scope, rounds - 1);
              && rest.Success?
              && (b.Failure? ==>
                    && Rounds(value, scope, rounds) == 1 + Rounds(c.rest, scope, rounds - 1)
                    && Structural(value, scope, rounds) == Success(c.pre + b.error + rest.value))
              && (b.Success? ==>
                    var sub := Structural(b.value, scope, rounds - 1);
                    && sub.Success?
                    && Rounds(value, scope, rounds)
                       == 1 + Max(Rounds(b.value, scope, rounds - 1), Rounds(c.rest, scope, rounds - 1))
                    && Structural(value, scope, rounds) == Success(c.pre + sub.value + rest.value))
  {
    hide *;
    StructuralUnfolds(value, scope, rounds);
    CountUnfolds(value, scope, rounds);
    var c := CutAtVar(value);
    if c.Call? {
      var b, rest := Behind(scope, c.inner), Structural(c.rest, scope, rounds - 1);
      MaxIs(if b.Success? then Rounds(b.value, scope, rounds - 1) else 0, Rounds(c.rest, scope, rounds - 1));
      if b.Failure? {
        PrependedIs(c.pre + b.error, rest);
      } else if Structural(b.value, scope, rounds - 1).Success? {
        PrependedIs(c.pre + Structural(b.value, scope, rounds - 1).value, rest);
      }
    }
  }

  /** The rounds are exactly what a meaning needs: any bound from there on gives
      the same meaning, and any bound below is too small. */
  lemma {:induction false} RoundsAreNeeded(value: string, scope: Scope, rounds: nat, bound: nat)
    requires Structural(value, scope, rounds).Success?
    ensures Rounds(value, scope, rounds) <= bound ==>
              && Structural(value, scope, bound) == Structural(value, scope, rounds)
              && Rounds(value, scope, bound) == Rounds(value, scope, rounds)
    ensures bound < Rounds(value, scope, rounds) ==> Structural(value, scope, bound) == Failure(TooDeep)
    decreases rounds
  {
    hide *;
    RoundsUnfolds(value, scope, rounds);
    StructuralUnfolds(value, scope, bound);
    var c := CutAtVar(value);
    if bound > 0 && c.Call? {
      var b, rest := Behind(scope, c.inner), Structural(c.rest, scope, bound - 1);
      MaxIs(if b.Success? then Rounds(b.value, scope, rounds - 1) else 0, Rounds(c.rest, scope, rounds - 1));
      RoundsAreNeeded(c.rest, scope, rounds - 1, bound - 1);
      if b.Success? {
        RoundsAreNeeded(b.value, scope, rounds - 1, bound - 1);
        var sub := Structural(b.value, scope, bound - 1);
        if sub.Success? {
          PrependedIs(c.pre + sub.value, rest);
        }
      } else {
        PrependedIs(c.pre + b.error, rest);
      }
    }
    if Structural(value, scope, bound).Success? {
      RoundsUnfolds(value, scope, bound);
    }
  }

  lemma MaxIs(a: nat, b: nat)
    ensures Max(a, b) == if a < b then b else a
  {
  }

  /** The value has a meaning, within some bound. */
  ghost predicate Meant(value: string, scope: Scope) {
    exists rounds :: Structural(value, scope, rounds).Success?
  }

  /** A value whose meaning spells no `var(` is answered with that meaning
      exactly when 33 rounds suffice, and otherwise refused as a cycle. */
  lemma MeaningIsAnsweredIff(value: string, scope: Scope, rounds: nat)
    requires Structural(value, scope, rounds).Success? && !SpellsVar(Structural(value, scope, rounds).value)
    ensures Resolved(value, scope, ROUNDS) ==
            if Rounds(value, scope, rounds) <= 33 then Structural(value, scope, rounds) else Failure(TooDeep)
  {
    hide Resolved, Structural, Rounds, SpellsVar;
    NothingBefore(value);
    NothingBefore(Structural(value, scope, rounds).value);
    SplicingTakesRounds("", value, scope, rounds, ROUNDS);
  }

  /** Whatever the input that has a meaning: the code answers with it exactly
      when it spells no `var(` and takes at most 33 rounds. */
  lemma ResolvedIsStructuralIff(value: string, scope: Scope, rounds: nat)
    requires Structural(value, scope, rounds).Success?
    ensures Resolved(value, scope, ROUNDS) == Structural(value, scope, rounds) <==>
            !SpellsVar(Structural(value, scope, rounds).value) && Rounds(value, scope, rounds) <= 33
  {
    hide Resolved, Structural, Rounds, SpellsVar;
    if Resolved(value, scope, ROUNDS).Success? {
      ResolvedSpellsNoVar(value, scope, ROUNDS);
    }
    if !SpellsVar(Structural(value, scope, rounds).value) {
      MeaningIsAnsweredIff(value, scope, rounds);
    }
  }

  /** And whatever the code answers is a meaning of the value exactly when the
      value has one that spells no `var(`. */
  lemma AnswerIsMeaningIff(value: string, scope: Scope)
    requires Resolved(value, scope, ROUNDS).Success?
    ensures (exists rounds :: Structural(value, scope, rounds) == Resolved(value, scope, ROUNDS)) <==>
            (exists rounds :: Structural(value, scope, rounds).Success?
                && !SpellsVar(Structural(value, scope, rounds).value))
  {
    hide Resolved, Structural, SpellsVar, Rounds;
    ResolvedSpellsNoVar(value, scope, ROUNDS);
    if rounds: nat :| Structural(value, scope, rounds).Success? && !SpellsVar(Structural(value, scope, rounds).value) {
      MeaningIsAnsweredIff(value, scope, rounds);
      assert Structural(value, scope, rounds) == Resolved(value, scope, ROUNDS);
    }
  }

  lemma NothingBefore(text: string)
    ensures "" + text == text
  {
  }

  /** Splicing reads the text in front over and over, and takes as many rounds
      as the value itself. */
  lemma {:induction false} SplicingTakesRounds(before: string, value: string, scope: Scope, rounds: nat, left: nat)
    requires Structural(value, scope, rounds).Success?
    requires !SpellsVar(before + Structural(value, scope, rounds).value)
    ensures Resolved(before + value, scope, left) ==
            if Rounds(value, scope, rounds) <= left then Success(before + Structural(value, scope, rounds).value)
            else Failure(TooDeep)
    decreases rounds
  {
    hide *;
    RoundsUnfolds(value, scope, rounds);
    ResolvedUnfolds(before + value, scope, left);
    var c := CutAtVar(value);
    if c.Plain? {
      PlainIff(before + value);
    } else {
      var b, after := Behind(scope, c.inner), Structural(c.rest, scope, rounds - 1).value;
      var sub := if b.Failure? then b.error else Structural(b.value, scope, rounds - 1).value;
      MaxIs(if b.Success? then Rounds(b.value, scope, rounds - 1) else 0, Rounds(c.rest, scope, rounds - 1));
      Regrouped(before, c.pre, sub, after);
      PartsSpellNoVar(before + c.pre, sub + after);
      PartsSpellNoVar(sub, after);
      if left > 0 {
        if b.Success? {
          NothingBefore(sub);
          NothingBefore(b.value);
          SplicingTakesRounds("", b.value, scope, rounds - 1, left - 1);
        }
        CutAfterText(before, value);
        SplicedIs(c.(pre := before + c.pre), sub);
        SplicingTakesRounds(before + c.pre + sub, c.rest, scope, rounds - 1, left - 1);
      }
    }
  }

  lemma Regrouped(a: string, b: string, c: string, d: string)
    ensures a + (b + c + d) == (a + b) + (c + d) == (a + b + c) + d
  {
  }

  lemma PrependedIs(before: string, r: Result<string, VarError>)
    ensures Prepended(before, r).Success? <==> r.Success?
    ensures r.Success? ==> Prepended(before, r).value == before + r.value
    ensures r.Failure? ==> Prepended(before, r) == r
  {
  }

  // ---- Inputs on which no splice completes a call ---------------------------

  /** The text cannot be the end of a `var(` begun before it. */
  predicate StartsSafe(text: string) {
    && !(|text| >= 1 && text[0] == '(')
    && !(|text| >= 2 && text[0] == 'r' && text[1] == '(')
    && !(|text| >= 3 && text[0] == 'a' && text[1] == 'r' && text[2] == '(')
  }

  function Parens(s: string): nat {
    multiset(s)['(']
  }

  lemma {:induction false} StripKeepsParens(s: string)
    ensures Parens(Strip(s)) <= Parens(s)
    decreases |s|
  {
    if s != "" {
      if IsSpace(s[0]) {
        assert s == [s[0]] + s[1..];
        StripKeepsParens(s[1..]);
      } else if IsSpace(s[|s| - 1]) {
        assert s == s[..|s| - 1] + [s[|s| - 1]];
        StripKeepsParens(s[..|s| - 1]);
      }
    }
  }

  lemma ParensAdd(a: string, b: string)
    ensures Parens(a + b) == Parens(a) + Parens(b)
    ensures Parens(",") == Parens(", ") == 0
  {
  }

  lemma {:induction false} JoinKeepsParens(parts: seq<string>)
    requires parts != []
    ensures Parens(Join(StripAll(parts)[1..], ", ")) <= Parens(Join(parts, ","))
  {
    hide Strip, Parens;
    ParensAdd("", "");
    if |parts| == 1 {
      assert StripAll(parts)[1..] == [];
      assert Join([], ", ") == "" && "" + "" == "";
    } else {
      var front, last := parts[..|parts| - 1], parts[|parts| - 1];
      var before := StripAll(front)[1..];
      JoinKeepsParens(front);
      StripKeepsParens(last);
      assert parts == front + [last];
      JoinSnoc(front, ",", last);
      ParensAdd(Join(front, ",") + ",", last);
      ParensAdd(Join(front, ","), ",");
      assert StripAll(parts)[1..] == before + [Strip(last)];
      if before == [] {
        assert before + [Strip(last)] == [Strip(last)];
      } else {
        JoinSnoc(before, ", ", Strip(last));
        ParensAdd(Join(before, ", ") + ", ", Strip(last));
        ParensAdd(Join(before, ", "), ", ");
      }
    }
  }

  /** What stands behind a call by fallback, and what follows it, opens fewer
      parentheses than the value. */
  lemma CallsShrink(value: string)
    requires CutAtVar(value).Call?
    ensures var c := CutAtVar(value);
            && Parens(c.rest) < Parens(value)
            && (FallbackOf(c.inner).Some? ==> Parens(FallbackOf(c.inner).value) < Parens(value))
  {
    hide CutAtVar, RawArgs, StripAll;
    var c := CutAtVar(value);
    assert value == c.pre + VAR + c.inner + ")" + c.rest;
    assert VAR == "var" + "(";
    SplitLosesNothing(c.inner);
    JoinKeepsParens(RawArgs(c.inner));
  }

  /** A check of the written text alone: what follows each call cannot end a
      `var(`, nor can any fallback, and no unresolved name spells one. */
  predicate CleanText(text: string)
    decreases Parens(text)
  {
    match CutAtVar(text)
    case Call(_, inner, rest) =>
      CallsShrink(text);
      && StartsSafe(rest) && CleanText(rest)
      && (FallbackOf(inner).Some? ==> StartsSafe(FallbackOf(inner).value) && CleanText(FallbackOf(inner).value))
      && FindVar(NameOf(inner)).None?
    case _ => true
  }

  predicate CleanScope(scope: Scope) {
    forall n :: n in scope ==> StartsSafe(scope[n]) && CleanText(scope[n])
  }

  lemma CleanUnfolds(value: string, scope: Scope)
    requires CleanText(value) && CleanScope(scope) && CutAtVar(value).Call?
    ensures var c := CutAtVar(value);
            var b := Behind(scope, c.inner);
            && StartsSafe(c.rest) && CleanText(c.rest)
            && (b.Success? ==> StartsSafe(b.value) && CleanText(b.value))
            && (b.Failure? ==> StartsSafe(b.error) && !SpellsVar(b.error))
  {
    hide CutAtVar, FallbackOf, NameOf, FindVar, SpellsVar;
    var c := CutAtVar(value);
    if Behind(scope, c.inner).Failure? {
      MarkSpellsNoVar(NameOf(c.inner));
    }
  }

  lemma MarkSpellsNoVar(name: string)
    requires FindVar(name).None?
    ensures StartsSafe(UnresolvedMark(name)) && !SpellsVar(UnresolvedMark(name))
  {
    hide FindVarFrom;
    assert UnresolvedMark(name)[0] == '<';
    forall i ensures !SpellsVarAt("<UNRESOLVED ", i) {
    }
    forall i ensures !SpellsVarAt(">", i) {
    }
    NoCallSpelledAcross("<UNRESOLVED ", name);
    NoCallSpelledAcross("<UNRESOLVED " + name, ">");
  }

  /** The prefix ends in a blank, or what follows is safe: nothing straddles. */
  lemma NoCallSpelledAcross(a: string, b: string)
    requires !SpellsVar(a) && !SpellsVar(b)
    requires StartsSafe(b) || (a != "" && a[|a| - 1] == ' ')
    ensures !SpellsVar(a + b)
  {
    forall i ensures !SpellsVarAt(a + b, i) {
      assert !SpellsVarAt(a, i) && !SpellsVarAt(b, i - |a|);
      if |a| - 4 < i < |a| {
        NoStraddle(a, b, i);
      }
    }
  }

  lemma NoStraddle(a: string, b: string, i: int)
    requires StartsSafe(b) || (a != "" && a[|a| - 1] == ' ')
    requires |a| - 4 < i < |a|
    ensures !SpellsVarAt(a + b, i)
  {
    assert forall j :: 0 <= j < |b| ==> b[j] == (a + b)[|a| + j];
    assert a != "" ==> (a + b)[|a| - 1] == a[|a| - 1];
  }

  lemma SafeTextsJoin(a: string, b: string)
    requires StartsSafe(a) && StartsSafe(b)
    ensures StartsSafe(a + b)
  {
  }

  lemma SafePrefix(value: string)
    requires StartsSafe(value) && CutAtVar(value).Call?
    ensures StartsSafe(CutAtVar(value).pre)
  {
    var c := CutAtVar(value);
    hide CutAtVar;
    assert value == c.pre + (VAR + c.inner + ")" + c.rest);
    assert c.pre <= value;
  }

  /** On clean input the code is the structural substitution: the same text or
      the same error, whatever the budget leaves of either. */
  lemma CleanIsStructural(value: string, scope: Scope, rounds: nat)
    requires CleanText(value) && CleanScope(scope)
    ensures Resolved(value, scope, rounds) == Structural(value, scope, rounds)
  {
    hide *;
    NothingBefore(value);
    NoVarInNothing();
    CleanSplicing("", value, scope, rounds);
    var r := Structural(value, scope, rounds);
    PrependedIs("", r);
    if r.Success? {
      NothingBefore(r.value);
    }
  }

  /** Names whose values each make a call to one of the names, wherever in the
      value or in a fallback that is used it stands. */
  ghost predicate Cyclic(scope: Scope, names: set<string>) {
    forall n :: n in names ==> n in scope && CallsSome(scope[n], scope, names)
  }

  predicate CallsSome(value: string, scope: Scope, names: set<string>)
    decreases Parens(value)
  {
    match CutAtVar(value)
    case Call(_, inner, rest) =>
      CallsShrink(value);
      || NameOf(inner) in names
      || (NameOf(inner) !in scope && FallbackOf(inner).Some? && CallsSome(FallbackOf(inner).value, scope, names))
      || CallsSome(rest, scope, names)
    case _ => false
  }

  lemma CallsSomeUnfolds(value: string, scope: Scope, names: set<string>)
    requires CallsSome(value, scope, names) && Cyclic(scope, names)
    ensures CutAtVar(value).Call?
    ensures var c := CutAtVar(value);
            var b := Behind(scope, c.inner);
            (b.Success? && CallsSome(b.value, scope, names)) || CallsSome(c.rest, scope, names)
  {
    hide CutAtVar, NameOf, FallbackOf;
  }

  /** A cyclic value has no structural meaning, whichever of its calls is the
      one that comes back. */
  lemma {:induction false} CyclesHaveNoMeaning(value: string, scope: Scope, names: set<string>, rounds: nat)
    requires Cyclic(scope, names) && CallsSome(value, scope, names)
    ensures Structural(value, scope, rounds).Failure?
    decreases rounds
  {
    hide *;
    StructuralUnfolds(value, scope, rounds);
    if rounds > 0 {
      CallsSomeUnfolds(value, scope, names);
      var c := CutAtVar(value);
      var b := Behind(scope, c.inner);
      if b.Success? && CallsSome(b.value, scope, names) {
        CyclesHaveNoMeaning(b.value, scope, names, rounds - 1);
      } else {
        CyclesHaveNoMeaning(c.rest, scope, names, rounds - 1);
        var after := Structural(c.rest, scope, rounds - 1);
        if b.Failure? {
          PrependedIs(c.pre + b.error, after);
        } else if Structural(b.value, scope, rounds - 1).Success? {
          PrependedIs(c.pre + Structural(b.value, scope, rounds - 1).value, after);
        }
      }
    }
  }

  /** Every call read while expanding the text closes. */
  predicate Closed(text: string, scope: Scope)
    decreases Parens(text)
  {
    match CutAtVar(text)
    case Plain => true
    case Open => false
    case Call(_, inner, rest) =>
      CallsShrink(text);
      && Closed(rest, scope)
      && (NameOf(inner) !in scope && FallbackOf(inner).Some? ==> Closed(FallbackOf(inner).value, scope))
  }

  ghost predicate AllClosed(value: string, scope: Scope) {
    Closed(value, scope) && forall n :: n in scope ==> Closed(scope[n], scope)
  }

  lemma ClosedUnfolds(value: string, scope: Scope)
    requires AllClosed(value, scope)
    ensures !CutAtVar(value).Open?
    ensures CutAtVar(value).Call? ==>
              var c := CutAtVar(value);
              var b := Behind(scope, c.inner);
              && AllClosed(c.rest, scope)
              && (b.Success? ==> AllClosed(b.value, scope))
              && Parens(c.rest) < Parens(value)
              && (b.Success? && NameOf(c.inner) !in scope ==> Parens(b.value) < Parens(value))
              && (NameOf(c.inner) in scope ==> b == Success(scope[NameOf(c.inner)]))
  {
    if CutAtVar(value).Call? {
      CallsShrink(value);
    }
    hide CutAtVar, NameOf, FallbackOf, Parens;
  }

  lemma CallsSomeIf(value: string, scope: Scope, names: set<string>)
    requires CutAtVar(value).Call?
    ensures var c := CutAtVar(value);
            var b := Behind(scope, c.inner);
            || NameOf(c.inner) in names
            || (NameOf(c.inner) !in scope && b.Success? && CallsSome(b.value, scope, names))
            || CallsSome(c.rest, scope, names)
            ==> CallsSome(value, scope, names)
  {
    hide CutAtVar, NameOf, FallbackOf;
  }

  /** What two meanings give together is a meaning. */
  lemma MeaningsJoin(value: string, scope: Scope)
    requires CutAtVar(value).Call? && Meant(CutAtVar(value).rest, scope)
    requires var b := Behind(scope, CutAtVar(value).inner); b.Success? ==> Meant(b.value, scope)
    ensures Meant(value, scope)
  {
    hide CutAtVar, Behind, Structural, Rounds;
    var c := CutAtVar(value);
    var b := Behind(scope, c.inner);
    var m: nat :| Structural(c.rest, scope, m).Success?;
    var n: nat := 0;
    if b.Success? {
      n :| Structural(b.value, scope, n).Success?;
      RoundsAreNeeded(b.value, scope, n, m + n);
      LessThanBound(b.value, scope, n);
    }
    RoundsAreNeeded(c.rest, scope, m, m + n);
    LessThanBound(c.rest, scope, m);
    StructuralUnfolds(value, scope, m + n + 1);
    assert Structural(value, scope, m + n + 1).Success?;
  }

  lemma LessThanBound(value: string, scope: Scope, rounds: nat)
    requires Structural(value, scope, rounds).Success?
    ensures Rounds(value, scope, rounds) <= rounds
  {
    hide Structural, Rounds;
    RoundsAreNeeded(value, scope, rounds, rounds);
  }

  lemma {:induction false} UnmeantCallsUnmeant(value: string, scope: Scope, names: set<string>)
    requires AllClosed(value, scope) && !Meant(value, scope)
    requires forall n :: n in scope && !Meant(scope[n], scope) ==> n in names
    ensures CallsSome(value, scope, names)
    decreases Parens(value)
  {
    hide *;
    ClosedUnfolds(value, scope);
    var c := CutAtVar(value);
    if c.Plain? {
      PlainIsMeant(value, scope);
    } else {
      var b := Behind(scope, c.inner);
      CallsSomeIf(value, scope, names);
      if b.Success? && !Meant(b.value, scope) {
        if NameOf(c.inner) !in scope {
          UnmeantCallsUnmeant(b.value, scope, names);
        }
      } else {
        if Meant(c.rest, scope) {
          MeaningsJoin(value, scope);
        } else {
          UnmeantCallsUnmeant(c.rest, scope, names);
        }
      }
    }
  }

  lemma PlainIsMeant(value: string, scope: Scope)
    requires CutAtVar(value).Plain?
    ensures Meant(value, scope)
  {
    hide CutAtVar;
    StructuralUnfolds(value, scope, 1);
  }

  /** Among texts whose calls all close, exactly the cyclic ones are without a
      meaning. */
  lemma MeantIffNotCyclic(value: string, scope: Scope)
    requires AllClosed(value, scope)
    ensures Meant(value, scope) <==> !exists names :: Cyclic(scope, names) && CallsSome(value, scope, names)
  {
    hide Structural, CallsSome, Closed;
    if names :| Cyclic(scope, names) && CallsSome(value, scope, names) {
      CyclicIsNotMeant(value, scope, names);
    }
    if !Meant(value, scope) {
      var names := set n | n in scope && !Meant(scope[n], scope);
      forall n | n in names ensures CallsSome(scope[n], scope, names) {
        UnmeantCallsUnmeant(scope[n], scope, names);
      }
      UnmeantCallsUnmeant(value, scope, names);
      assert Cyclic(scope, names);
    }
  }

  /** On clean input a meaning is answered exactly when 33 rounds suffice, and
      otherwise refused as a cycle, though nothing in it is cyclic. */
  lemma CleanIsAnsweredIff(value: string, scope: Scope, rounds: nat)
    requires CleanText(value) && CleanScope(scope)
    requires Structural(value, scope, rounds).Success?
    ensures Resolved(value, scope, ROUNDS) ==
            if Rounds(value, scope, rounds) <= 33 then Structural(value, scope, rounds) else Failure(TooDeep)
  {
    hide *;
    CleanIsStructural(value, scope, rounds);
    ResolvedSpellsNoVar(value, scope, rounds);
    MeaningIsAnsweredIff(value, scope, rounds);
  }

  /** And on clean input the code refuses a cyclic value. */
  lemma CleanCyclesNeverReturn(value: string, scope: Scope, names: set<string>, rounds: nat)
    requires CleanText(value) && CleanScope(scope)
    requires Cyclic(scope, names) && CallsSome(value, scope, names)
    ensures Resolved(value, scope, rounds).Failure?
  {
    hide *;
    CleanIsStructural(value, scope, rounds);
    CyclesHaveNoMeaning(value, scope, names, rounds);
  }

  lemma NoVarInNothing()
    ensures !SpellsVar("")
  {
  }

  lemma {:induction false} CleanSplicing(before: string, value: string, scope: Scope, rounds: nat)
    requires CleanText(value) && CleanScope(scope)
    requires !SpellsVar(before) && (before == "" || StartsSafe(value))
    ensures Resolved(before + value, scope, rounds) == Prepended(before, Structural(value, scope, rounds))
    ensures StartsSafe(value) && Structural(value, scope, rounds).Success? ==>
                StartsSafe(Structural(value, scope, rounds).value)
    decreases rounds, 1
  {
    hide *;
    StructuralUnfolds(value, scope, rounds);
    ResolvedUnfolds(before + value, scope, rounds);
    PrependedIs(before, Structural(value, scope, rounds));
    if rounds > 0 {
      var c := CutAtVar(value);
      FrontSpellsNoVar(before, value);
      if c.Open? {
        OpenAfterText(before, value);
      } else if c.Plain? {
        PlainIff(before + value);
      } else {
        var b := Behind(scope, c.inner);
        CleanUnfolds(value, scope);
        CutAfterText(before, value);
        if b.Success? {
          NothingBefore(b.value);
          NoVarInNothing();
          CleanSplicing("", b.value, scope, rounds - 1);
          var r := Structural(b.value, scope, rounds - 1);
          PrependedIs("", r);
          if r.Success? {
            NothingBefore(r.value);
            PrependedIs(c.pre + r.value, Structural(c.rest, scope, rounds - 1));
            ResolvedSpellsNoVar(b.value, scope, rounds - 1);
            CleanStep(before, value, c, r.value, scope, rounds);
          }
        } else {
          PrependedIs(c.pre + b.error, Structural(c.rest, scope, rounds - 1));
          CleanStep(before, value, c, b.error, scope, rounds);
        }
      }
    }
  }

  /** Once the call has its substitute, the rest is read below it. */
  lemma CleanStep(before: string, value: string, c: Cut, sub: string, scope: Scope, rounds: nat)
    requires rounds > 0 && CutAtVar(value) == c && c.Call? && CleanText(c.rest) && CleanScope(scope)
    requires !SpellsVar(before + c.pre) && !SpellsVar(sub) && StartsSafe(sub) && StartsSafe(c.rest)
    ensures Resolved(Spliced(c.(pre := before + c.pre), sub), scope, rounds - 1)
            == Prepended(before, Prepended(c.pre + sub, Structural(c.rest, scope, rounds - 1)))
    ensures StartsSafe(value) && Structural(c.rest, scope, rounds - 1).Success? ==>
              StartsSafe(Prepended(c.pre + sub, Structural(c.rest, scope, rounds - 1)).value)
    decreases rounds, 0
  {
    hide *;
    var front, after := before + c.pre + sub, Structural(c.rest, scope, rounds - 1);
    NoCallSpelledAcross(before + c.pre, sub);
    SplicedIs(c.(pre := before + c.pre), sub);
    CleanSplicing(front, c.rest, scope, rounds - 1);
    PrependedIs(front, after);
    PrependedIs(c.pre + sub, after);
    PrependedIs(before, Prepended(c.pre + sub, after));
    if after.Success? {
      assert front + after.value == before + (c.pre + sub + after.value);
      if StartsSafe(value) {
        SafePrefix(value);
        SafeTextsJoin(c.pre, sub);
        SafeTextsJoin(c.pre + sub, after.value);
      }
    }
  }

  lemma FrontSpellsNoVar(before: string, value: string)
    requires !SpellsVar(before) && (before == "" || StartsSafe(value))
    ensures CutAtVar(value).Plain? ==> !SpellsVar(before + value)
    ensures CutAtVar(value).Call? ==> !SpellsVar(before + CutAtVar(value).pre)
    ensures FindVar(value).Some? ==>
              FindVar(value).value <= |value| && !SpellsVar(before + value[..FindVar(value).value])
  {
    if FindVar(value).None? {
      PlainIff(value);
      if before == "" {
        NothingBefore(value);
      } else {
        NoCallSpelledAcross(before, value);
      }
    } else {
      var i := FindVar(value).value;
      NoVarBefore(value, i);
      var front := value[..i];
      if before == "" {
        NothingBefore(front);
      } else {
        assert StartsSafe(front);
        NoCallSpelledAcross(before, front);
      }
      if CutAtVar(value).Call? {
        var i', j := CutPlaces(value);
      }
    }
  }

  lemma OpenAfterText(before: string, value: string)
    requires CutAtVar(value).Open? && FindVar(value).Some?
    requires FindVar(value).value <= |value| && !SpellsVar(before + value[..FindVar(value).value])
    ensures CutAtVar(before + value).Open?
  {
    var i := FindVar(value).value;
    OpenMeans(value);
    hide *;
    FirstVarShifts(before, value, i);
    CloseShifts(before, value, i + 3, 0);
    OpenIf(before + value, |before| + i);
  }

  lemma OpenMeans(value: string)
    requires CutAtVar(value).Open? && FindVar(value).Some?
    ensures var i := FindVar(value).value; i + 4 <= |value| && SpellsVarAt(value, i) && CloseFrom(value, i + 3, 0).None?
  {
    hide FindVarFrom, CloseFrom;
  }

  lemma OpenIf(value: string, i: nat)
    requires FindVar(value) == Some(i) && i + 3 <= |value| && CloseFrom(value, i + 3, 0).None?
    ensures CutAtVar(value).Open?
  {
    hide FindVarFrom, CloseFrom;
  }

  lemma PlainIff(value: string)
    ensures CutAtVar(value).Plain? <==> !SpellsVar(value)
  {
  }

  lemma SplicedIs(c: Cut, sub: string)
    requires c.Call?
    ensures Spliced(c, sub) == c.pre + sub + c.rest
  {
  }

  lemma PartsSpellNoVar(a: string, b: string)
    requires !SpellsVar(a + b)
    ensures !SpellsVar(a) && !SpellsVar(b)
  {
    forall i ensures !SpellsVarAt(a, i) && !SpellsVarAt(b, i) {
      assert SpellsVarAt(a, i) ==> SpellsVarAt(a + b, i);
      assert SpellsVarAt(b, i) ==> SpellsVarAt(a + b, |a| + i);
    }
  }

  /** Text in front that spells no `var(` with what precedes the first call
      leaves that call the first: `var(` has no proper border. */
  lemma CutAfterText(before: string, value: string)
    requires CutAtVar(value).Call? && !SpellsVar(before + CutAtVar(value).pre)
    ensures CutAtVar(before + value) == CutAtVar(value).(pre := before + CutAtVar(value).pre)
  {
    hide *;
    var i, j := CutPlaces(value);
    var s, n := before + value, |before|;
    FirstVarShifts(before, value, i);
    CloseShifts(before, value, i + 3, 0);
    CutFromPlaces(s, n + i, n + j);
    assert s[..n + i] == before + value[..i];
    assert s[n + i + 4..n + j] == value[i + 4..j];
    assert s[n + j + 1..] == value[j + 1..];
  }

  lemma CutPlaces(value: string) returns (i: nat, j: nat)
    requires CutAtVar(value).Call?
    ensures i + 4 <= j < |value| && SpellsVarAt(value, i) && FindVar(value) == Some(i)
            && CloseFrom(value, i + 3, 0) == Some(j)
    ensures CutAtVar(value) == Call(value[..i], value[i + 4..j], value[j + 1..])
  {
    i := FindVar(value).value;
    j := CloseFrom(value, i + 3, 0).value;
    CutIsExact(value, i, j);
  }

  lemma CutFromPlaces(value: string, i: nat, j: nat)
    requires i + 4 <= j < |value| && FindVar(value) == Some(i) && CloseFrom(value, i + 3, 0) == Some(j)
    ensures CutAtVar(value) == Call(value[..i], value[i + 4..j], value[j + 1..])
  {
    hide CloseFrom, SpellsVar;
  }

  lemma FirstVarShifts(before: string, value: string, i: nat)
    requires SpellsVarAt(value, i) && !SpellsVar(before + value[..i])
    ensures FindVar(before + value) == Some(|before| + i)
  {
    hide FindVarFrom;
    var s, n := before + value, |before|;
    forall k | 0 <= k < n + i ensures !SpellsVarAt(s, k) {
      assert k + 4 <= n + i ==> (SpellsVarAt(s, k) <==> SpellsVarAt(before + value[..i], k));
      assert s[n + i] == 'v' && s[n + i + 1] == 'a' && s[n + i + 2] == 'r' && s[n + i + 3] == '(';
    }
    assert SpellsVarAt(s, n + i);
  }

  lemma {:induction false} CloseShifts(before: string, s: string, j: nat, depth: int)
    requires j <= |s|
    ensures CloseFrom(before + s, |before| + j, depth) ==
            match CloseFrom(s, j, depth) case None => None case Some(k) => Some(|before| + k)
    decreases |s| - j
  {
    if j < |s| && depth + Nesting(s[j]) != 0 {
      CloseShifts(before, s, j + 1, depth + Nesting(s[j]));
    }
  }

  // ---- The budget -----------------------------------------------------------

  /** How many calls the value makes side by side. */
  function Calls(value: string): nat
    decreases |value|
  {
    match CutAtVar(value)
    case Call(_, _, rest) => 1 + Calls(rest)
    case _ => 0
  }

  /** Every call closes and names a variable whose value is plain text. */
  predicate CallsPlain(value: string, scope: Scope)
    decreases |value|
  {
    match CutAtVar(value)
    case Plain => true
    case Open => false
    case Call(_, inner, rest) =>
      && NameOf(inner) in scope && CutAtVar(scope[NameOf(inner)]).Plain?
      && CallsPlain(rest, scope)
  }

  /** What such a value means, whatever the budget. */
  function PlainMeaning(value: string, scope: Scope): string
    requires CallsPlain(value, scope)
    decreases |value|
  {
    match CutAtVar(value)
    case Plain => value
    case Call(pre, inner, rest) => pre + scope[NameOf(inner)] + PlainMeaning(rest, scope)
  }

  lemma PlainUnfolds(value: string, scope: Scope)
    requires CallsPlain(value, scope)
    ensures var c := CutAtVar(value);
            && !c.Open?
            && (c.Plain? ==> PlainMeaning(value, scope) == value && Calls(value) == 0)
            && (c.Call? ==>
                  && NameOf(c.inner) in scope && CallsPlain(c.rest, scope) && |c.rest| < |value|
                  && Behind(scope, c.inner) == Success(scope[NameOf(c.inner)])
                  && CutAtVar(scope[NameOf(c.inner)]).Plain?
                  && Calls(value) == 1 + Calls(c.rest)
                  && PlainMeaning(value, scope) == c.pre + scope[NameOf(c.inner)] + PlainMeaning(c.rest, scope))
  {
    hide CutAtVar, NameOf, FallbackOf;
  }

  lemma {:induction false} PlainCallsAreMeant(value: string, scope: Scope)
    requires CallsPlain(value, scope)
    ensures Structural(value, scope, Calls(value) + 1) == Success(PlainMeaning(value, scope))
    ensures Rounds(value, scope, Calls(value) + 1) == Calls(value) + 1
    decreases |value|
  {
    hide *;
    PlainUnfolds(value, scope);
    StructuralUnfolds(value, scope, Calls(value) + 1);
    CountUnfolds(value, scope, Calls(value) + 1);
    var c := CutAtVar(value);
    if c.Call? {
      var sub := scope[NameOf(c.inner)];
      PlainCallsAreMeant(c.rest, scope);
      StructuralUnfolds(sub, scope, Calls(value));
      CountUnfolds(sub, scope, Calls(value));
      PrependedIs(c.pre + sub, Structural(c.rest, scope, Calls(value)));
      MaxIs(1, Calls(value));
    }
  }

  /** Calls side by side spend the same budget as nested ones: a value that
      calls only plain variables is refused as a cycle exactly when it makes
      more than 32 calls, although nothing in it is cyclic. */
  lemma SequentialCallsSpendBudget(value: string, scope: Scope)
    requires CallsPlain(value, scope) && !SpellsVar(PlainMeaning(value, scope))
    ensures Resolved(value, scope, ROUNDS) ==
            if Calls(value) <= 32 then Success(PlainMeaning(value, scope)) else Failure(TooDeep)
  {
    hide Resolved, Structural, Rounds, PlainMeaning, Calls, CallsPlain, SpellsVar;
    PlainCallsAreMeant(value, scope);
    MeaningIsAnsweredIff(value, scope, Calls(value) + 1);
  }

  // ---- Where splicing and structure part ------------------------------------

  lemma OneArgument(c: char)
    requires c != ',' && !IsSpace(c)
    ensures RawArgs([c]) == [[c]] && Strip([c]) == [c] && (Nesting(c) == 0 ==> RawArgs([c, ',']) == [[c], ""])
  {
    assert [c][..0] == "" && RawArgs("") == [""] && Depth("") == 0;
    assert "" + [c] == [c];
    assert RawArgs([c]) == [[c]];
    assert [c, ','][..1] == [c];
    if Nesting(c) == 0 {
      assert Depth([c]) == 0;
    }
  }

  lemma CallsOneName(name: string, scope: Scope)
    requires |name| == 1 && name[0] != ',' && !IsSpace(name[0]) && name in scope
    ensures NameOf(name) == name && Behind(scope, name) == Success(scope[name])
  {
    hide RawArgs, Strip, FallbackOf;
    OneArgument(name[0]);
    assert name == [name[0]];
  }

  lemma PlainText(value: string, scope: Scope, rounds: nat)
    requires |value| < 4 && rounds > 0
    ensures Resolved(value, scope, rounds) == Structural(value, scope, rounds) == Success(value)
  {
    hide *;
    ShortIsPlain(value);
    ResolvedUnfolds(value, scope, rounds);
    StructuralUnfolds(value, scope, rounds);
  }

  lemma ShortIsPlain(value: string)
    requires |value| < 4
    ensures CutAtVar(value).Plain?
  {
    PlainIff(value);
  }

  lemma {:induction false} FirstArgumentStays(front: string, tail: string)
    requires |RawArgs(front)| >= 2
    ensures |RawArgs(front + tail)| >= 2 && RawArgs(front + tail)[0] == RawArgs(front)[0]
  {
    if tail == "" {
      assert front + tail == front;
    } else {
      var most := tail[..|tail| - 1];
      FirstArgumentStays(front, most);
      assert (front + tail)[..|front + tail| - 1] == front + most;
    }
  }

  const PARTING := map["a" := "var", "b" := "x", "c" := "var(c)"]

  lemma CutOfCall(value: string, i: nat, j: nat)
    requires i + 4 <= j < |value| && SpellsVarAt(value, i) && CloseFrom(value, i + 3, 0) == Some(j)
    requires forall k :: 0 <= k < i ==> value[k] != 'v'
    ensures CutAtVar(value) == Call(value[..i], value[i + 4..j], value[j + 1..])
  {
    hide CloseFrom;
    assert FindVar(value) == Some(i);
    CutFromPlaces(value, i, j);
  }

  /** Between parentheses the closing place is looked for one further on. */
  lemma {:induction false} CloseSkips(s: string, j: nat, k: nat, depth: int)
    requires j <= k <= |s| && depth > 0 && forall i :: j <= i < k ==> Nesting(s[i]) == 0
    ensures CloseFrom(s, j, depth) == CloseFrom(s, k, depth)
    decreases k - j
  {
    if j < k {
      CloseSkips(s, j + 1, k, depth);
    }
  }

  lemma CloseMeets(s: string, j: nat, depth: int)
    requires j < |s| && depth >= 0
    ensures s[j] == '(' ==> CloseFrom(s, j, depth) == CloseFrom(s, j + 1, depth + 1)
    ensures s[j] == ')' && depth == 1 ==> CloseFrom(s, j, depth) == Some(j)
    ensures s[j] == ')' && depth == 2 ==> CloseFrom(s, j, depth) == CloseFrom(s, j + 1, 1)
  {
  }

  /** A call of one name without parentheses. */
  lemma SimpleCut(value: string, i: nat, j: nat)
    requires i + 4 <= j < |value| && SpellsVarAt(value, i) && value[j] == ')'
    requires forall k :: i + 4 <= k < j ==> Nesting(value[k]) == 0
    requires forall k :: 0 <= k < i ==> value[k] != 'v'
    ensures CutAtVar(value) == Call(value[..i], value[i + 4..j], value[j + 1..])
  {
    hide CutAtVar, CloseFrom;
    CloseMeets(value, i + 3, 0);
    CloseSkips(value, i + 4, j, 1);
    CloseMeets(value, j, 1);
    CutOfCall(value, i, j);
  }

  lemma PartingCut()
    ensures CutAtVar("var(a)(b,var(c))") == Call("", "a", "(b,var(c))")
  {
    hide CutAtVar;
    PartingParts();
    SimpleCut("var(a)(b,var(c))", 0, 5);
  }

  lemma PartingParts()
    ensures var s := "var(a)(b,var(c))"; s[..0] == "" && s[4..5] == "a" && s[6..] == "(b,var(c))"
  {
  }

  lemma RestCut()
    ensures CutAtVar("(b,var(c))") == Call("(b,", "c", ")")
  {
    hide CutAtVar;
    var s := "(b,var(c))";
    SimpleCut(s, 3, 8);
    assert s[..3] == "(b," && s[7..8] == "c" && s[9..] == ")";
  }

  lemma CyclicCut()
    ensures CutAtVar("var(c)") == Call("", "c", "")
  {
    hide CutAtVar;
    var s := "var(c)";
    SimpleCut(s, 0, 5);
    assert s[..0] == "" && s[4..5] == "c" && s[6..] == "";
  }

  lemma SwallowingCut()
    ensures CutAtVar("var(b,var(c))") == Call("", "b,var(c)", "")
  {
    hide CutAtVar, CloseFrom;
    SwallowingClose();
    SwallowingParts();
    CutOfCall("var(b,var(c))", 0, 12);
  }

  lemma SwallowingClose()
    ensures CloseFrom("var(b,var(c))", 3, 0) == Some(12)
  {
    hide CloseFrom;
    var s := "var(b,var(c))";
    CloseMeets(s, 3, 0);
    CloseSkips(s, 4, 9, 1);
    CloseMeets(s, 9, 1);
    CloseSkips(s, 10, 11, 2);
    CloseMeets(s, 11, 2);
    CloseMeets(s, 12, 1);
  }

  lemma SwallowingParts()
    ensures var s := "var(b,var(c))"; s[..0] == "" && s[4..12] == "b,var(c)" && s[13..] == ""
  {
  }

  lemma SwallowingName()
    ensures NameOf("b,var(c)") == "b"
  {
    hide RawArgs, Strip;
    OneArgument('b');
    FirstArgumentStays("b,", "var(c)");
    assert "b," + "var(c)" == "b,var(c)";
  }

  /** The value of `a` and the text after its call spell a call of their own,
      which swallows the cyclic call of `c` into a fallback nobody needs: the
      code returns where the value has no meaning. */
  lemma SpliceSwallowsACycle()
    ensures Resolved("var(a)(b,var(c))", PARTING, ROUNDS) == Success("x")
    ensures !Meant("var(a)(b,var(c))", PARTING)
  {
    hide *;
    PartingCut();
    PartingValues();
    ResolvedUnfolds("var(a)(b,var(c))", PARTING, ROUNDS);
    PlainText("var", PARTING, 32);
    SplicedIs(Call("", "a", "(b,var(c))"), "var");
    assert "" + "var" + "(b,var(c))" == "var(b,var(c))";
    SwallowingReturns();
    PartingIsCyclic();
    CyclicIsNotMeant("var(a)(b,var(c))", PARTING, {"c"});
  }

  lemma CyclicIsNotMeant(value: string, scope: Scope, names: set<string>)
    requires Cyclic(scope, names) && CallsSome(value, scope, names)
    ensures !Meant(value, scope)
  {
    hide Structural, CallsSome;
    forall rounds ensures Structural(value, scope, rounds).Failure? {
      CyclesHaveNoMeaning(value, scope, names, rounds);
    }
  }

  lemma PartingValues()
    ensures "a" in PARTING && PARTING["a"] == "var" && "b" in PARTING && PARTING["b"] == "x"
    ensures "c" in PARTING && PARTING["c"] == "var(c)" && ROUNDS == 33
    ensures Behind(PARTING, "a") == Success("var")
  {
    CallsOneName("a", PARTING);
  }

  lemma SwallowingReturns()
    ensures Resolved("var(b,var(c))", PARTING, 32) == Success("x")
  {
    hide *;
    SwallowingCut();
    SwallowingName();
    PartingValues();
    BehindKnown("b,var(c)", PARTING);
    ResolvedUnfolds("var(b,var(c))", PARTING, 32);
    PlainText("x", PARTING, 31);
    SplicedIs(Call("", "b,var(c)", ""), "x");
    assert "" + "x" + "" == "x";
  }

  lemma BehindKnown(inner: string, scope: Scope)
    requires NameOf(inner) in scope
    ensures Behind(scope, inner) == Success(scope[NameOf(inner)])
  {
  }

  lemma PartingIsCyclic()
    ensures Cyclic(PARTING, {"c"}) && CallsSome("var(a)(b,var(c))", PARTING, {"c"})
  {
    hide CutAtVar, NameOf, FallbackOf;
    PartingCut();
    RestCut();
    CyclicCut();
    CallsOneName("c", PARTING);
  }

  function ManyCalls(n: nat): string {
    if n == 0 then "" else "var(a)" + ManyCalls(n - 1)
  }

  lemma CutOfFirst(rest: string)
    ensures CutAtVar("var(a)" + rest) == Call("", "a", rest)
  {
    hide CutAtVar;
    var value := "var(a)" + rest;
    assert value[0] == 'v' && value[1] == 'a' && value[2] == 'r'
        && value[3] == '(' && value[4] == 'a' && value[5] == ')';
    SimpleCut(value, 0, 5);
    assert value[..0] == "" && value[4..5] == "a" && value[6..] == rest;
  }

  /** Calls of a plain variable put in front take one round each. */
  lemma {:induction false} CallsInFront(n: nat, last: string, scope: Scope, rounds: nat)
    requires "a" in scope && scope["a"] == "x"
    requires Structural(last, scope, rounds).Success? && 'v' !in Structural(last, scope, rounds).value
    ensures Structural(ManyCalls(n) + last, scope, rounds + n).Success?
    ensures 'v' !in Structural(ManyCalls(n) + last, scope, rounds + n).value
    ensures Rounds(ManyCalls(n) + last, scope, rounds + n) == n + Rounds(last, scope, rounds)
    ensures Calls(ManyCalls(n) + last) == n + Calls(last)
  {
    hide *;
    if n == 0 {
      NoCallsInFront(last);
    } else {
      var value, rest := ManyCalls(n) + last, ManyCalls(n - 1) + last;
      CallsInFront(n - 1, last, scope, rounds);
      OneMoreCall(n, last);
      CutOfFirst(rest);
      VariableStands("a", scope);
      RoundsUnfolds(last, scope, rounds);
      PlainText("x", scope, rounds + n - 1);
      StructuralUnfolds(value, scope, rounds + n);
      CountUnfolds(value, scope, rounds + n);
      ShortIsPlain("x");
      CountUnfolds("x", scope, rounds + n - 1);
      CallsUnfold(value);
      PrependedIs("" + "x", Structural(rest, scope, rounds + n - 1));
      RoundsUnfolds(rest, scope, rounds + n - 1);
      MaxIs(1, Rounds(rest, scope, rounds + n - 1));
    }
  }

  lemma VariableStands(name: string, scope: Scope)
    requires name in {"a", "b"} && name in scope
    ensures Behind(scope, name) == Success(scope[name])
  {
    CallsOneName(name, scope);
  }

  lemma NoCallsInFront(last: string)
    ensures ManyCalls(0) + last == last
  {
  }

  lemma OneMoreCall(n: nat, last: string)
    requires n > 0
    ensures ManyCalls(n) + last == "var(a)" + (ManyCalls(n - 1) + last)
  {
  }

  lemma CallsUnfold(value: string)
    ensures Calls(value) == if CutAtVar(value).Call? then 1 + Calls(CutAtVar(value).rest) else 0
  {
    hide CutAtVar;
  }

  lemma CallOfB(scope: Scope)
    requires "a" in scope && scope["a"] == "x" && "b" in scope && scope["b"] == "var(a)"
    ensures Structural("var(b)", scope, 3) == Success("x") && Rounds("var(b)", scope, 3) == 3 && Calls("var(b)") == 1
  {
    hide *;
    SimpleCuts();
    ShortIsPlain("x");
    ShortIsPlain("");
    VariableStands("a", scope);
    VariableStands("b", scope);
    PlainText("x", scope, 1);
    PlainText("", scope, 1);
    PlainText("", scope, 2);
    StructuralUnfolds("var(a)", scope, 2);
    StructuralUnfolds("var(b)", scope, 3);
    CountUnfolds("", scope, 1);
    CountUnfolds("", scope, 2);
    CountUnfolds("x", scope, 1);
    CountUnfolds("var(a)", scope, 2);
    CountUnfolds("var(b)", scope, 3);
    MaxIs(1, 1);
    MaxIs(2, 1);
    PrependedIs("" + "x", Success(""));
    assert "" + "x" + "" == "x";
    CallsUnfold("var(b)");
    CallsUnfold("");
  }

  lemma SimpleCuts()
    ensures CutAtVar("var(a)") == Call("", "a", "") && CutAtVar("var(b)") == Call("", "b", "")
  {
    hide CutAtVar;
    CutOfFirst("");
    assert "var(a)" + "" == "var(a)";
    var u := "var(b)";
    SimpleCut(u, 0, 5);
    assert u[..0] == "" && u[4..5] == "b" && u[6..] == "";
  }

  /** Thirty-three calls of one plain variable, side by side: refused as a
      cycle, although one call fewer is answered. */
  lemma ThirtyThreeCallsAreRefused()
    ensures var scope := map["a" := "x"];
            && Calls(ManyCalls(33)) == 33
            && Resolved(ManyCalls(33), scope, ROUNDS) == Failure(TooDeep)
            && Resolved(ManyCalls(32), scope, ROUNDS).Success?
  {
    hide Resolved, ManyCalls, Structural, Rounds, Calls, CutAtVar;
    var scope := map["a" := "x"];
    PlainText("", scope, 1);
    ShortIsPlain("");
    CountUnfolds("", scope, 1);
    CallsUnfold("");
    CallsInFront(33, "", scope, 1);
    CallsInFront(32, "", scope, 1);
    MeaningSpellsNoVar(ManyCalls(33) + "", scope, 34);
    MeaningSpellsNoVar(ManyCalls(32) + "", scope, 33);
    assert ManyCalls(33) + "" == ManyCalls(33) && ManyCalls(32) + "" == ManyCalls(32);
    MeaningIsAnsweredIff(ManyCalls(33), scope, 34);
    MeaningIsAnsweredIff(ManyCalls(32), scope, 33);
  }

  lemma MeaningSpellsNoVar(value: string, scope: Scope, rounds: nat)
    requires Structural(value, scope, rounds).Success? && 'v' !in Structural(value, scope, rounds).value
    ensures !SpellsVar(Structural(value, scope, rounds).value)
  {
    hide Structural;
  }

  /** Thirty-two calls side by side, of which the last calls a variable that
      calls another: refused as a cycle. With one call fewer it is answered. */
  lemma NestedLastCallIsRefused()
    ensures var scope := map["a" := "x", "b" := "var(a)"];
            && Calls(ManyCalls(31) + "var(b)") == 32
            && Resolved(ManyCalls(31) + "var(b)", scope, ROUNDS) == Failure(TooDeep)
            && Resolved(ManyCalls(30) + "var(b)", scope, ROUNDS).Success?
  {
    hide Resolved, ManyCalls, Structural, Rounds, Calls, CutAtVar;
    var scope := map["a" := "x", "b" := "var(a)"];
    CallOfB(scope);
    CallsInFront(31, "var(b)", scope, 3);
    CallsInFront(30, "var(b)", scope, 3);
    MeaningIsAnsweredIff(ManyCalls(31) + "var(b)", scope, 34);
    MeaningIsAnsweredIff(ManyCalls(30) + "var(b)", scope, 33);
  }
}
