/** The `attr(...)` recognizer: the global regular expression
      /attr\(([\S]+)(?:\s*(em|ex|px|rem|vw|vh|vmin|vmax|mm|cm|in|pt|pc|%)?)(?:,\s*([\S^)]+))?\)/gm
    written out as a backtracking search that tries the alternatives in the order a
    JavaScript regex engine does: every `+` and `*` from its longest run down to its
    shortest, an optional group before its omission, and the unit alternatives
    left to right. The class `[\S^)]` is `\S` (both `^` and `)` are non-space). */
module AttrScanner {
  import opened Ast

  /** The characters JavaScript's `\s` matches. */
  predicate IsSpace(c: char)
  {
    c == ' ' || c == '\t' || c == '\n' || c == '\r' || c == '\U{000B}' || c == '\U{000C}' ||
    c == '\U{00A0}' || c == '\U{1680}' || ('\U{2000}' <= c <= '\U{200A}') ||
    c == '\U{2028}' || c == '\U{2029}' || c == '\U{202F}' || c == '\U{205F}' ||
    c == '\U{3000}' || c == '\U{FEFF}'
  }

  /** Below U+00A0, `\s` holds exactly the six ASCII white-space characters: no other
      control character (U+001C to U+001F included) and no visible character, so
      neither `(`, `)` nor `,`. */
  lemma SpaceClass(c: char)
    ensures c == ' ' || c == '\t' || c == '\n' || c == '\r' || c == '\U{000B}' || c == '\U{000C}' ==> IsSpace(c)
    ensures IsSpace(c) && c < '\U{00A0}' ==>
              c == ' ' || c == '\t' || c == '\n' || c == '\r' || c == '\U{000B}' || c == '\U{000C}'
  {
  }

  predicate AllSpace(s: string)
  {
    forall i :: 0 <= i < |s| ==> IsSpace(s[i])
  }

  predicate NoSpace(s: string)
  {
    forall i :: 0 <= i < |s| ==> !IsSpace(s[i])
  }

  /** The unit alternatives of the second capture group, in the regex's order. */
  const Units: seq<string> := ["em", "ex", "px", "rem", "vw", "vh", "vmin", "vmax",
                               "mm", "cm", "in", "pt", "pc", "%"]

  const Opener: string := "attr("

  /** One result of `regex.exec`: `value` is the matched text (group 0), `propName`,
      `unit` and `defaultValue` are groups 1 to 3 (None when a group did not take part),
      `index` is where the match starts. `gap` and `defaultGap` record the text that the
      two `\s*` consumed; they belong to no group and the plugin never reads them. */
  datatype Match = Match(index: nat, value: string, propName: string, unit: Option<string>,
                         defaultValue: Option<string>, gap: string, defaultGap: string)

  /** Where the regex resumes after `m` (`lastIndex`). */
  function End(m: Match): nat
  {
    m.index + |m.value|
  }

  function UnitText(unit: Option<string>): string
  {
    if unit.Some? then unit.value else ""
  }

  function DefaultText(defaultGap: string, defaultValue: Option<string>): string
  {
    if defaultValue.Some? then "," + defaultGap + defaultValue.value else ""
  }

  /** The part of a match after its property name: the `\s*`, groups 2 and 3 and the
      text around them, and the position after the closing parenthesis. */
  datatype Rest = Rest(gap: string, unit: Option<string>, defaultGap: string,
                       defaultValue: Option<string>, end: nat)

  function TailText(x: Rest): string
  {
    DefaultText(x.defaultGap, x.defaultValue) + ")"
  }

  function UnitTailText(x: Rest): string
  {
    UnitText(x.unit) + TailText(x)
  }

  function RestText(x: Rest): string
  {
    x.gap + UnitTailText(x)
  }

  function RestOf(m: Match): Rest
  {
    Rest(m.gap, m.unit, m.defaultGap, m.defaultValue, End(m))
  }

  /** The text a match with these groups consists of, by the grammar of the regex. */
  function Render(m: Match): string
  {
    Opener + (m.propName + RestText(RestOf(m)))
  }

  /** What the regex demands of the groups after the property name. */
  predicate GroupsOk(x: Rest)
  {
    AllSpace(x.gap) &&
    (x.unit.Some? ==> x.unit.value in Units) &&
    (x.defaultValue.Some? ==> |x.defaultValue.value| > 0 && NoSpace(x.defaultValue.value) && AllSpace(x.defaultGap)) &&
    (x.defaultValue.None? ==> x.defaultGap == "")
  }

  /** What every match of the regex satisfies. */
  predicate WellFormed(m: Match)
  {
    |m.propName| > 0 && NoSpace(m.propName) && GroupsOk(RestOf(m)) && m.value == Render(m)
  }

  /** `m` is the text of `s` at `m.index`. */
  predicate OccursIn(s: string, m: Match)
  {
    End(m) <= |s| && s[m.index..End(m)] == m.value
  }

  /** A slice is the concatenation of its two halves around any inner cut. */
  lemma SliceSplit(s: string, a: nat, b: nat, c: nat)
    requires a <= b <= c <= |s|
    ensures s[a..c] == s[a..b] + s[b..c]
  {
  }

  lemma SpaceSlice(s: string, a: nat, b: nat)
    requires a <= b <= |s|
    requires forall i :: a <= i < b ==> IsSpace(s[i])
    ensures AllSpace(s[a..b])
  {
  }

  lemma WordSlice(s: string, a: nat, b: nat)
    requires a <= b <= |s|
    requires forall i :: a <= i < b ==> !IsSpace(s[i])
    ensures NoSpace(s[a..b])
  {
  }

  /** Length of the longest run of `\s` starting at `p`. */
  function SpaceRun(s: string, p: nat): (n: nat)
    requires p <= |s|
    ensures p + n <= |s|
    ensures forall i :: p <= i < p + n ==> IsSpace(s[i])
    ensures p + n < |s| ==> !IsSpace(s[p + n])
    decreases |s| - p
  {
    if p < |s| && IsSpace(s[p]) then 1 + SpaceRun(s, p + 1) else 0
  }

  /** Length of the longest run of `\S` starting at `p`. */
  function WordRun(s: string, p: nat): (n: nat)
    requires p <= |s|
    ensures p + n <= |s|
    ensures forall i :: p <= i < p + n ==> !IsSpace(s[i])
    ensures p + n < |s| ==> IsSpace(s[p + n])
    decreases |s| - p
  {
    if p < |s| && !IsSpace(s[p]) then 1 + WordRun(s, p + 1) else 0
  }

  /** `([\S^)]+)\)` at `d`, trying value lengths from `len` down to 1. */
  function DefaultValueAt(s: string, d: nat, len: nat): (o: Option<nat>)
    requires d + len <= |s|
    ensures o.Some? ==> 0 < o.value <= len && d + o.value < |s| && s[d + o.value] == ')'
    decreases len
  {
    if len == 0 then None
    else if d + len < |s| && s[d + len] == ')' then Some(len)
    else DefaultValueAt(s, d, len - 1)
  }

  /** `\s*([\S^)]+)\)` at `q`, trying gap lengths from `w` down to 0. */
  function DefaultGapAt(s: string, q: nat, w: nat): (o: Option<Rest>)
    requires q + w <= |s|
    ensures o.Some? ==> q < o.value.end <= |s|
    decreases w
  {
    var v := q + w;
    var len := DefaultValueAt(s, v, WordRun(s, v));
    if len.Some? then Some(Rest("", None, s[q..v], Some(s[v..v + len.value]), v + len.value + 1))
    else if w == 0 then None
    else DefaultGapAt(s, q, w - 1)
  }

  /** `(?:,\s*([\S^)]+))?\)` at `r`: the default part first, then its omission. */
  function TailAt(s: string, r: nat): (o: Option<Rest>)
    requires r <= |s|
    ensures o.Some? ==> r < o.value.end <= |s|
  {
    var withDefault :=
      if r < |s| && s[r] == ',' then DefaultGapAt(s, r + 1, SpaceRun(s, r + 1)) else None;
    if withDefault.Some? then withDefault
    else if r < |s| && s[r] == ')' then Some(Rest("", None, "", None, r + 1))
    else None
  }

  /** `(em|ex|...|%)?` followed by the tail at `r`: the unit alternatives `alts` in
      order, then the omitted unit. */
  function UnitAt(s: string, r: nat, alts: seq<string>): (o: Option<Rest>)
    requires r <= |s|
    ensures o.Some? ==> r < o.value.end <= |s|
  {
    if alts == [] then TailAt(s, r)
    else
      var u := alts[0];
      var t := if r + |u| <= |s| && s[r..r + |u|] == u then TailAt(s, r + |u|) else None;
      if t.Some? then Some(t.value.(unit := Some(u)))
      else UnitAt(s, r, alts[1..])
  }

  /** `\s*` followed by the unit and tail at `q`, trying gap lengths from `w` down to 0. */
  function GapAt(s: string, q: nat, w: nat): (o: Option<Rest>)
    requires q + w <= |s|
    ensures o.Some? ==> q < o.value.end <= |s|
    decreases w
  {
    var t := UnitAt(s, q + w, Units);
    if t.Some? then Some(t.value.(gap := s[q..q + w]))
    else if w == 0 then None
    else GapAt(s, q, w - 1)
  }

  /** `\s*` with the unit and tail at `q`: what the regex matches after a property name
      ending at `q`. */
  function RestAt(s: string, q: nat): (o: Option<Rest>)
    requires q <= |s|
    ensures o.Some? ==> q < o.value.end <= |s|
  {
    GapAt(s, q, SpaceRun(s, q))
  }

  /** `RestAt` for every position of `s`, computed once per string. */
  function Rests(s: string): (t: seq<Option<Rest>>)
    ensures |t| == |s| + 1
  {
    seq(|s| + 1, q requires 0 <= q <= |s| => RestAt(s, q))
  }

  /** `([\S]+)` and the rest of the match after the opener at `p`, trying property name
      lengths from `len` down to 1; `rests` is `Rests(s)`. */
  function NameAt(s: string, p: nat, len: nat, rests: seq<Option<Rest>>): (o: Option<Match>)
    requires p + |Opener| + len <= |s| && |rests| == |s| + 1
    ensures o.Some? ==> o.value.index == p && p < End(o.value) <= |s|
    decreases len
  {
    if len == 0 then None
    else
      var q := p + |Opener| + len;
      var t := rests[q];
      if t.Some? && q < t.value.end <= |s| then Some(Assemble(s, p, q, t.value))
      else NameAt(s, p, len - 1, rests)
  }

  function Assemble(s: string, p: nat, q: nat, x: Rest): (m: Match)
    requires p + |Opener| <= q < x.end <= |s|
    ensures m.index == p && End(m) == x.end
  {
    Match(p, s[p..x.end], s[p + |Opener|..q], x.unit, x.defaultValue, x.gap, x.defaultGap)
  }

  /** The match the regex finds when it tries to start at `p`, if any; `rests` is
      `Rests(s)`. */
  function MatchAt(s: string, p: nat, rests: seq<Option<Rest>>): (o: Option<Match>)
    requires |rests| == |s| + 1
    ensures o.Some? ==> o.value.index == p && p < End(o.value) <= |s|
  {
    if p + |Opener| <= |s| && s[p..p + |Opener|] == Opener
    then NameAt(s, p, WordRun(s, p + |Opener|), rests)
    else None
  }

  /** A default part found after the gap `s[q..v]`: its text is the gap, the value
      and the closing parenthesis, and its groups keep the regex's character classes. */
  predicate DefaultSound(s: string, q: nat, o: Option<Rest>)
    requires q <= |s|
  {
    o.Some? ==> q <= o.value.end <= |s| && o.value.gap == "" && o.value.unit.None? &&
                o.value.defaultValue.Some? &&
                s[q..o.value.end] == o.value.defaultGap + o.value.defaultValue.value + ")" &&
                GroupsOk(o.value)
  }

  lemma DefaultHit(s: string, q: nat, v: nat, len: nat)
    requires q <= v && 0 < len && v + len < |s| && s[v + len] == ')'
    requires forall i :: q <= i < v ==> IsSpace(s[i])
    requires forall i :: v <= i < v + len ==> !IsSpace(s[i])
    ensures DefaultSound(s, q, Some(Rest("", None, s[q..v], Some(s[v..v + len]), v + len + 1)))
  {
    SliceSplit(s, q, v, v + len + 1);
    SliceSplit(s, v, v + len, v + len + 1);
    assert s[v + len..v + len + 1] == ")";
    SpaceSlice(s, q, v);
    WordSlice(s, v, v + len);
  }

  lemma DefaultGapHit(s: string, q: nat, w: nat)
    requires q + w <= |s|
    requires forall i :: q <= i < q + w ==> IsSpace(s[i])
    requires DefaultValueAt(s, q + w, WordRun(s, q + w)).Some?
    ensures DefaultSound(s, q, DefaultGapAt(s, q, w))
  {
    var v := q + w;
    var len := DefaultValueAt(s, v, WordRun(s, v)).value;
    assert DefaultGapAt(s, q, w) == Some(Rest("", None, s[q..v], Some(s[v..v + len]), v + len + 1));
    DefaultHit(s, q, v, len);
  }

  lemma {:induction false} DefaultGapAtSound(s: string, q: nat, w: nat)
    requires q + w <= |s|
    requires forall i :: q <= i < q + w ==> IsSpace(s[i])
    ensures DefaultSound(s, q, DefaultGapAt(s, q, w))
    decreases w
  {
    if DefaultValueAt(s, q + w, WordRun(s, q + w)).Some? {
      DefaultGapHit(s, q, w);
    } else if w > 0 {
      DefaultGapAtSound(s, q, w - 1);
    }
  }

  lemma CommaHit(s: string, r: nat, x: Rest)
    requires r < x.end <= |s| && s[r] == ',' && x.defaultValue.Some?
    requires s[r + 1..x.end] == x.defaultGap + x.defaultValue.value + ")"
    ensures s[r..x.end] == TailText(x)
  {
    assert s[r..x.end] == [','] + s[r + 1..x.end];
  }

  lemma TailAtSound(s: string, r: nat)
    requires r <= |s|
    ensures var o := TailAt(s, r);
            o.Some? ==> o.value.gap == "" && o.value.unit.None? &&
                        s[r..o.value.end] == TailText(o.value) && GroupsOk(o.value)
  {
    var withDefault :=
      if r < |s| && s[r] == ',' then DefaultGapAt(s, r + 1, SpaceRun(s, r + 1)) else None;
    if withDefault.Some? {
      DefaultGapAtSound(s, r + 1, SpaceRun(s, r + 1));
      CommaHit(s, r, withDefault.value);
    } else if r < |s| && s[r] == ')' {
      assert s[r..r + 1] == ")";
    }
  }

  lemma UnitHit(s: string, r: nat, u: string, t: Rest)
    requires r + |u| < t.end <= |s| && s[r..r + |u|] == u && u in Units
    requires t.gap == "" && t.unit.None? && s[r + |u|..t.end] == TailText(t) && GroupsOk(t)
    ensures var x := t.(unit := Some(u));
            s[r..x.end] == UnitTailText(x) && GroupsOk(x)
  {
    SliceSplit(s, r, r + |u|, t.end);
  }

  lemma UnitAltHit(s: string, r: nat, alts: seq<string>)
    requires r <= |s| && alts != [] && alts[0] in Units
    requires r + |alts[0]| <= |s| && s[r..r + |alts[0]|] == alts[0] && TailAt(s, r + |alts[0]|).Some?
    ensures var o := UnitAt(s, r, alts);
            o.Some? && o.value.gap == "" && s[r..o.value.end] == UnitTailText(o.value) &&
            GroupsOk(o.value)
  {
    TailAtSound(s, r + |alts[0]|);
    UnitHit(s, r, alts[0], TailAt(s, r + |alts[0]|).value);
  }

  lemma {:induction false} UnitAtSound(s: string, r: nat, alts: seq<string>)
    requires r <= |s|
    requires forall u :: u in alts ==> u in Units
    ensures var o := UnitAt(s, r, alts);
            o.Some? ==> o.value.gap == "" && s[r..o.value.end] == UnitTailText(o.value) &&
                        GroupsOk(o.value)
  {
    if alts == [] {
      TailAtSound(s, r);
    } else {
      var u := alts[0];
      if r + |u| <= |s| && s[r..r + |u|] == u && TailAt(s, r + |u|).Some? {
        UnitAltHit(s, r, alts);
      } else {
        assert forall v :: v in alts[1..] ==> v in alts;
        UnitAtSound(s, r, alts[1..]);
      }
    }
  }

  lemma GapHit(s: string, q: nat, w: nat, t: Rest)
    requires q + w < t.end <= |s|
    requires forall i :: q <= i < q + w ==> IsSpace(s[i])
    requires t.gap == "" && s[q + w..t.end] == UnitTailText(t) && GroupsOk(t)
    ensures var x := t.(gap := s[q..q + w]);
            s[q..x.end] == RestText(x) && GroupsOk(x)
  {
    var x := t.(gap := s[q..q + w]);
    assert UnitTailText(x) == UnitTailText(t);
    SliceSplit(s, q, q + w, x.end);
    SpaceSlice(s, q, q + w);
  }

  lemma {:induction false} GapAtSound(s: string, q: nat, w: nat)
    requires q + w <= |s|
    requires forall i :: q <= i < q + w ==> IsSpace(s[i])
    ensures var o := GapAt(s, q, w);
            o.Some? ==> s[q..o.value.end] == RestText(o.value) && GroupsOk(o.value)
    decreases w
  {
    var t := UnitAt(s, q + w, Units);
    if t.Some? {
      UnitAtSound(s, q + w, Units);
      GapHit(s, q, w, t.value);
    } else if w > 0 {
      GapAtSound(s, q, w - 1);
    }
  }

  /** A match assembled from the opener at `p`, the property name up to `q` and the
      rest `x` is well formed and is the text of `s` it spans. */
  lemma MatchFromParts(s: string, p: nat, q: nat, x: Rest)
    requires p + |Opener| < q < x.end <= |s| && s[p..p + |Opener|] == Opener
    requires forall i :: p + |Opener| <= i < q ==> !IsSpace(s[i])
    requires s[q..x.end] == RestText(x) && GroupsOk(x)
    ensures WellFormed(Assemble(s, p, q, x)) && OccursIn(s, Assemble(s, p, q, x))
  {
    var n := p + |Opener|;
    var m := Assemble(s, p, q, x);
    assert End(m) == x.end;
    assert RestOf(m) == x;
    calc {
      s[p..x.end];
      s[p..n] + (s[n..q] + s[q..x.end]);
      Render(m);
    }
    WordSlice(s, n, q);
  }

  /** What the regex matches after a property name ending at `q` is an instance of
      its grammar and is the text of `s` there. */
  predicate RestSound(s: string, q: nat, o: Option<Rest>)
  {
    o.Some? ==> q < o.value.end <= |s| && s[q..o.value.end] == RestText(o.value) && GroupsOk(o.value)
  }

  /** Every entry of `rests` is sound for its position, as `RestsSound` shows `Rests(s)` is. */
  predicate SoundTable(s: string, rests: seq<Option<Rest>>)
  {
    |rests| == |s| + 1 && forall q :: 0 <= q < |rests| ==> RestSound(s, q, rests[q])
  }

  lemma RestsSound(s: string)
    ensures SoundTable(s, Rests(s))
  {
    forall q | 0 <= q <= |s|
      ensures RestSound(s, q, Rests(s)[q])
    {
      RestAtSound(s, q);
    }
  }

  lemma RestAtSound(s: string, q: nat)
    requires q <= |s|
    ensures RestSound(s, q, RestAt(s, q))
  {
    GapAtSound(s, q, SpaceRun(s, q));
  }

  lemma NameHit(s: string, p: nat, len: nat, rests: seq<Option<Rest>>)
    requires 0 < len && p + |Opener| + len <= |s| && |rests| == |s| + 1
    requires rests[p + |Opener| + len].Some?
    requires p + |Opener| + len < rests[p + |Opener| + len].value.end <= |s|
    ensures NameAt(s, p, len, rests) ==
            Some(Assemble(s, p, p + |Opener| + len, rests[p + |Opener| + len].value))
  {
  }

  lemma {:induction false} NameAtSound(s: string, p: nat, len: nat, rests: seq<Option<Rest>>)
    requires p + |Opener| + len <= |s| && |rests| == |s| + 1 && s[p..p + |Opener|] == Opener
    requires forall i :: p + |Opener| <= i < p + |Opener| + len ==> !IsSpace(s[i])
    requires SoundTable(s, rests)
    ensures var o := NameAt(s, p, len, rests);
            o.Some? ==> WellFormed(o.value) && OccursIn(s, o.value)
    decreases len
  {
    if len > 0 {
      var q := p + |Opener| + len;
      var t := rests[q];
      if t.Some? {
        assert RestSound(s, q, t);
        NameHit(s, p, len, rests);
        MatchFromParts(s, p, q, t.value);
      } else {
        NameAtSound(s, p, len - 1, rests);
      }
    }
  }

  /** Whatever the regex matches at `p` is an instance of its grammar: `attr(`, a
      non-empty property name without white space, white space, an optional unit from
      the fixed list, an optional `,` with white space and a non-empty default without
      white space, and `)`; and it is the text of `s` at `p`. */
  lemma MatchAtSound(s: string, p: nat, rests: seq<Option<Rest>>)
    requires SoundTable(s, rests)
    ensures var o := MatchAt(s, p, rests);
            o.Some? ==> WellFormed(o.value) && OccursIn(s, o.value)
  {
    if p + |Opener| <= |s| && s[p..p + |Opener|] == Opener {
      NameAtSound(s, p, WordRun(s, p + |Opener|), rests);
    }
  }

  /** What the regex matches at each position of `s`, computed once per string. */
  function Found(s: string): (t: seq<Option<Match>>)
    ensures |t| == |s| + 1
  {
    var rests := Rests(s);
    seq(|s| + 1, p requires 0 <= p <= |s| => MatchAt(s, p, rests))
  }

  /** Each entry of `found` is a match starting at its own position, inside `s`. */
  predicate Placed(s: string, found: seq<Option<Match>>)
  {
    |found| == |s| + 1 &&
    forall p :: 0 <= p < |found| && found[p].Some? ==>
      found[p].value.index == p && p < End(found[p].value) <= |s|
  }

  /** Each entry of `found` is a sound instance of the grammar and the text of `s`. */
  predicate Sound(s: string, found: seq<Option<Match>>)
  {
    forall p :: 0 <= p < |found| && found[p].Some? ==>
      WellFormed(found[p].value) && OccursIn(s, found[p].value)
  }

  /** `Found(s)` is what the regex matches at each position. */
  lemma FoundIsMatchAt(s: string)
    ensures forall p :: 0 <= p <= |s| ==> Found(s)[p] == MatchAt(s, p, Rests(s))
  {
  }

  /** The entries of `Found(s)` are placed and sound. */
  lemma FoundPlaced(s: string)
    ensures Placed(s, Found(s)) && Sound(s, Found(s))
  {
    FoundIsMatchAt(s);
    RestsSound(s);
    forall p | 0 <= p <= |s|
      ensures var o := Found(s)[p]; o.Some? ==> WellFormed(o.value) && OccursIn(s, o.value)
    {
      MatchAtSound(s, p, Rests(s));
    }
  }

  /** `regex.exec(s)` with `regex.lastIndex == from`, where `found` is `Found(s)`: the
      leftmost position at or after `from` where the regex matches, and that match. */
  function Exec(s: string, from: nat, found: seq<Option<Match>>): (o: Option<Match>)
    requires Placed(s, found)
    ensures o.Some? ==> from <= o.value.index <= |s| && found[o.value.index] == o
    ensures o.Some? ==> forall p :: from <= p < o.value.index ==> found[p].None?
    ensures o.None? ==> forall p :: from <= p < |found| ==> found[p].None?
    decreases |s| - from
  {
    if |s| < from then None
    else
      var m := found[from];
      if m.Some? then m
      else if from == |s| then None
      else Exec(s, from + 1, found)
  }

  /** Every match `regex.exec` reports when it is called again and again from
      `lastIndex == from` until it fails. */
  function AllMatches(s: string, from: nat, found: seq<Option<Match>>): seq<Match>
    requires Placed(s, found)
    decreases |s| - from
  {
    var m := Exec(s, from, found);
    if m.None? then []
    else
      [m.value] + AllMatches(s, End(m.value), found)
  }

  /** The matches of the regex in `s`, from `lastIndex == 0`: each is a well-formed
      instance of the grammar and the text of `s` at its index. */
  function Matches(s: string): (r: seq<Match>)
    ensures forall k :: 0 <= k < |r| ==> WellFormed(r[k]) && OccursIn(s, r[k])
  {
    FoundPlaced(s);
    AllMatchesFound(s, 0, Found(s));
    AllMatches(s, 0, Found(s))
  }

  /** The scanning loop of the plugin: `while ((attrMatch = regex.exec(str)) !== null)`
      collects the matches of one template segment. */
  method ExecAll(str: string, found: seq<Option<Match>>) returns (matches: seq<Match>)
    requires Placed(str, found)
    ensures matches == AllMatches(str, 0, found)
  {
    matches := [];
    var lastIndex := 0;
    var attrMatch := Exec(str, lastIndex, found);
    while attrMatch.Some?
      invariant lastIndex <= |str|
      invariant attrMatch == Exec(str, lastIndex, found)
      invariant matches + AllMatches(str, lastIndex, found) == AllMatches(str, 0, found)
      decreases |str| - lastIndex
    {
      matches := matches + [attrMatch.value];
      lastIndex := End(attrMatch.value);
      attrMatch := Exec(str, lastIndex, found);
    }
  }

  /** The matches of one segment's cooked text, collected by a fresh `regex`
      (`lastIndex` starts at 0 for every segment). */
  method ScanSegment(str: string) returns (matches: seq<Match>)
    ensures matches == Matches(str)
  {
    FoundPlaced(str);
    matches := ExecAll(str, Found(str));
  }

  /** Reported matches lie in `s` at or after `from`, and none is empty. */
  lemma {:induction false} AllMatchesAfter(s: string, from: nat, found: seq<Option<Match>>)
    requires Placed(s, found)
    ensures forall k :: 0 <= k < |AllMatches(s, from, found)| ==>
              from <= AllMatches(s, from, found)[k].index &&
              AllMatches(s, from, found)[k].index < End(AllMatches(s, from, found)[k]) <= |s|
    decreases |s| - from
  {
    var m := Exec(s, from, found);
    if m.Some? {
      var ms := AllMatches(s, from, found);
      var rest := AllMatches(s, End(m.value), found);
      assert ms == [m.value] + rest;
      AllMatchesAfter(s, End(m.value), found);
      forall k | 0 < k < |ms|
        ensures from <= ms[k].index < End(ms[k]) <= |s|
      {
        assert ms[k] == rest[k - 1];
      }
    }
  }

  /** Each reported match is the entry of `found` at its own index. */
  lemma {:induction false} AllMatchesFound(s: string, from: nat, found: seq<Option<Match>>)
    requires Placed(s, found)
    ensures forall k :: 0 <= k < |AllMatches(s, from, found)| ==>
              AllMatches(s, from, found)[k].index <= |s| &&
              found[AllMatches(s, from, found)[k].index] == Some(AllMatches(s, from, found)[k])
    decreases |s| - from
  {
    var m := Exec(s, from, found);
    if m.Some? {
      var ms := AllMatches(s, from, found);
      var rest := AllMatches(s, End(m.value), found);
      assert ms == [m.value] + rest;
      AllMatchesFound(s, End(m.value), found);
      forall k | 0 < k < |ms|
        ensures ms[k].index <= |s| && found[ms[k].index] == Some(ms[k])
      {
        assert ms[k] == rest[k - 1];
      }
    }
  }

  /** Reported matches never overlap; as none is empty, their indices strictly ascend. */
  lemma {:induction false} AllMatchesOrdered(s: string, from: nat, found: seq<Option<Match>>)
    requires Placed(s, found)
    ensures forall j, k :: 0 <= j < k < |AllMatches(s, from, found)| ==>
              End(AllMatches(s, from, found)[j]) <= AllMatches(s, from, found)[k].index
    decreases |s| - from
  {
    var m := Exec(s, from, found);
    if m.Some? {
      var ms := AllMatches(s, from, found);
      var rest := AllMatches(s, End(m.value), found);
      assert ms == [m.value] + rest;
      AllMatchesOrdered(s, End(m.value), found);
      AllMatchesAfter(s, End(m.value), found);
      forall j, k | 0 <= j < k < |ms|
        ensures End(ms[j]) <= ms[k].index
      {
        assert ms[k] == rest[k - 1];
        if j > 0 {
          assert ms[j] == rest[j - 1];
        }
      }
    }
  }

  /** No place where the regex matches is skipped: every position at or after `from`
      where a match could start is the start of a reported match or lies inside one. */
  lemma {:induction false} AllMatchesComplete(s: string, from: nat, p: nat, found: seq<Option<Match>>)
    requires Placed(s, found)
    requires from <= p < |found| && found[p].Some?
    ensures exists k :: 0 <= k < |AllMatches(s, from, found)| &&
              AllMatches(s, from, found)[k].index <= p < End(AllMatches(s, from, found)[k])
    decreases |s| - from
  {
    var m := Exec(s, from, found);
    assert m.Some?;
    var ms := AllMatches(s, from, found);
    var rest := AllMatches(s, End(m.value), found);
    assert ms == [m.value] + rest;
    if p < End(m.value) {
      assert ms[0].index <= p < End(ms[0]);
    } else {
      AllMatchesComplete(s, End(m.value), p, found);
      var k :| 0 <= k < |rest| && rest[k].index <= p < End(rest[k]);
      assert ms[k + 1] == rest[k];
    }
  }

  /** The matches of `s` are what the regex finds at their indices, well-formed
      instances of the grammar, and the text of `s` there. */
  lemma MatchesSound(s: string)
    ensures forall m :: m in Matches(s) ==>
              MatchAt(s, m.index, Rests(s)) == Some(m) && WellFormed(m) && OccursIn(s, m)
  {
    FoundIsMatchAt(s);
    FoundPlaced(s);
    var found := Found(s);
    assert Matches(s) == AllMatches(s, 0, found);
    AllMatchesFound(s, 0, found);
    forall m | m in Matches(s)
      ensures MatchAt(s, m.index, Rests(s)) == Some(m) && WellFormed(m) && OccursIn(s, m)
    {
      var k :| 0 <= k < |Matches(s)| && Matches(s)[k] == m;
      assert found[m.index] == Some(m);
    }
  }

  /** The matches of `s` are in text order, lie inside `s` and do not overlap. */
  lemma MatchesOrdered(s: string)
    ensures forall k :: 0 <= k < |Matches(s)| ==>
              Matches(s)[k].index < End(Matches(s)[k]) <= |s|
    ensures forall j, k :: 0 <= j < k < |Matches(s)| ==>
              End(Matches(s)[j]) <= Matches(s)[k].index
  {
    FoundPlaced(s);
    var found := Found(s);
    assert Matches(s) == AllMatches(s, 0, found);
    AllMatchesAfter(s, 0, found);
    AllMatchesOrdered(s, 0, found);
  }

  /** Every place of `s` where the regex matches is covered by one of the matches. */
  lemma MatchesComplete(s: string, p: nat)
    requires p <= |s| && MatchAt(s, p, Rests(s)).Some?
    ensures exists k :: 0 <= k < |Matches(s)| && Matches(s)[k].index <= p < End(Matches(s)[k])
  {
    FoundIsMatchAt(s);
    FoundPlaced(s);
    var found := Found(s);
    assert Matches(s) == AllMatches(s, 0, found);
    AllMatchesComplete(s, 0, p, found);
  }

  // ---------------------------------------------------------------------------
  // Completeness and greediness: every instance of the grammar is found

  /** No run of white space from `p` is longer than `SpaceRun(s, p)`. */
  lemma SpaceRunLongest(s: string, p: nat, n: nat)
    requires p + n <= |s|
    requires forall i :: p <= i < p + n ==> IsSpace(s[i])
    ensures n <= SpaceRun(s, p)
  {
  }

  /** No run of non-white-space from `p` is longer than `WordRun(s, p)`. */
  lemma WordRunLongest(s: string, p: nat, n: nat)
    requires p + n <= |s|
    requires forall i :: p <= i < p + n ==> !IsSpace(s[i])
    ensures n <= WordRun(s, p)
  {
  }

  /** A default value of length `l` followed by `)` is found, or a longer one. */
  lemma {:induction false} DefaultValueAtFinds(s: string, d: nat, len: nat, l: nat)
    requires d + len <= |s| && 0 < l <= len && d + l < |s| && s[d + l] == ')'
    ensures DefaultValueAt(s, d, len).Some? && DefaultValueAt(s, d, len).value >= l
    decreases len
  {
    if !(d + len < |s| && s[d + len] == ')') {
      DefaultValueAtFinds(s, d, len - 1, l);
    }
  }

  /** A default part after a gap of length `g <= w` is found. */
  lemma {:induction false} DefaultGapAtFinds(s: string, q: nat, w: nat, g: nat)
    requires q + w <= |s| && g <= w
    requires DefaultValueAt(s, q + g, WordRun(s, q + g)).Some?
    ensures DefaultGapAt(s, q, w).Some?
    decreases w
  {
    if w != g && DefaultValueAt(s, q + w, WordRun(s, q + w)).None? {
      DefaultGapAtFinds(s, q, w - 1, g);
    }
  }

  /** A slice of a slice is a slice. */
  lemma SliceOfSlice(s: string, a: nat, b: nat, t: string, i: nat, j: nat)
    requires a <= b <= |s| && s[a..b] == t && i <= j <= |t|
    ensures s[a + i..a + j] == t[i..j]
  {
    forall k | 0 <= k < j - i
      ensures s[a + i..a + j][k] == t[i..j][k]
    {
      assert s[a + i + k] == s[a..b][i + k];
    }
  }

  /** White space `w` written at `p`, character by character. */
  lemma SpacesAt(s: string, p: nat, w: string)
    requires p + |w| <= |s| && s[p..p + |w|] == w && AllSpace(w)
    ensures forall i :: p <= i < p + |w| ==> IsSpace(s[i])
  {
    forall i | p <= i < p + |w|
      ensures IsSpace(s[i])
    {
      assert s[i] == w[i - p];
    }
  }

  /** A word `w` written at `p`, character by character. */
  lemma WordAt(s: string, p: nat, w: string)
    requires p + |w| <= |s| && s[p..p + |w|] == w && NoSpace(w)
    ensures forall i :: p <= i < p + |w| ==> !IsSpace(s[i])
  {
    forall i | p <= i < p + |w|
      ensures !IsSpace(s[i])
    {
      assert s[i] == w[i - p];
    }
  }

  /** The parts of a default part `,` gap value `)` written at `r`. */
  lemma DefaultParts(s: string, r: nat, x: Rest)
    requires r <= x.end <= |s| && s[r..x.end] == TailText(x) && x.defaultValue.Some?
    ensures r + 1 + |x.defaultGap| + |x.defaultValue.value| < |s|
    ensures s[r] == ','
    ensures s[r + 1..r + 1 + |x.defaultGap|] == x.defaultGap
    ensures s[r + 1 + |x.defaultGap|..r + 1 + |x.defaultGap| + |x.defaultValue.value|] == x.defaultValue.value
    ensures s[r + 1 + |x.defaultGap| + |x.defaultValue.value|] == ')'
  {
    var g := |x.defaultGap|;
    var l := |x.defaultValue.value|;
    var t := TailText(x);
    assert t == [','] + x.defaultGap + x.defaultValue.value + [')'];
    assert t[1..1 + g] == x.defaultGap;
    assert t[1 + g..1 + g + l] == x.defaultValue.value;
    assert s[r] == t[0];
    assert s[r + 1 + g + l] == t[g + l + 1];
    SliceOfSlice(s, r, x.end, t, 1, 1 + g);
    SliceOfSlice(s, r, x.end, t, 1 + g, 1 + g + l);
  }

  /** A gap of `g` spaces at `q`, then a value of `l` non-spaces and `)`, is found by
      `DefaultGapAt`. */
  lemma DefaultGapFound(s: string, q: nat, g: nat, l: nat)
    requires q + g + l < |s| && 0 < l
    requires forall i :: q <= i < q + g ==> IsSpace(s[i])
    requires forall i :: q + g <= i < q + g + l ==> !IsSpace(s[i])
    requires s[q + g + l] == ')'
    ensures DefaultGapAt(s, q, SpaceRun(s, q)).Some?
  {
    DefaultRuns(s, q, g, l);
    DefaultGapAtFinds(s, q, SpaceRun(s, q), g);
  }

  /** The gap lies within the run of white space at `q`, and a default value is found
      after it. */
  lemma DefaultRuns(s: string, q: nat, g: nat, l: nat)
    requires q + g + l < |s| && 0 < l
    requires forall i :: q <= i < q + g ==> IsSpace(s[i])
    requires forall i :: q + g <= i < q + g + l ==> !IsSpace(s[i])
    requires s[q + g + l] == ')'
    ensures g <= SpaceRun(s, q)
    ensures DefaultValueAt(s, q + g, WordRun(s, q + g)).Some?
  {
    SpaceRunLongest(s, q, g);
    WordRunLongest(s, q + g, l);
    DefaultValueAtFinds(s, q + g, WordRun(s, q + g), l);
  }

  /** Every instance of `(?:,\s*([\S^)]+))?\)` at `r` is found by `TailAt`. */
  lemma TailAtComplete(s: string, r: nat, x: Rest)
    requires r <= x.end <= |s| && s[r..x.end] == TailText(x) && GroupsOk(x)
    ensures TailAt(s, r).Some?
  {
    if x.defaultValue.Some? {
      DefaultParts(s, r, x);
      SpacesAt(s, r + 1, x.defaultGap);
      WordAt(s, r + 1 + |x.defaultGap|, x.defaultValue.value);
      DefaultGapFound(s, r + 1, |x.defaultGap|, |x.defaultValue.value|);
    } else {
      assert s[r..x.end] == ")";
      assert s[r] == ')';
    }
  }

  /** A unit `u` written at `r` splits the text into `u` and the tail after it. */
  lemma UnitSplit(s: string, r: nat, x: Rest)
    requires r <= x.end <= |s| && s[r..x.end] == UnitTailText(x) && x.unit.Some?
    ensures r + |x.unit.value| <= x.end
    ensures s[r..r + |x.unit.value|] == x.unit.value
    ensures s[r + |x.unit.value|..x.end] == TailText(x)
  {
    var u := x.unit.value;
    var t := UnitTailText(x);
    assert t == u + TailText(x);
    assert t[..|u|] == u && t[|u|..] == TailText(x);
    SliceOfSlice(s, r, x.end, t, 0, |u|);
    SliceOfSlice(s, r, x.end, t, |u|, |t|);
  }

  /** Trying the unit alternatives `alts` in order finds a match when the unit `u`
      written at `r`, or its omission, is followed by a tail. */
  lemma {:induction false} UnitAtFinds(s: string, r: nat, alts: seq<string>, u: Option<string>)
    requires r <= |s|
    requires u.Some? ==> u.value in alts && r + |u.value| <= |s| && s[r..r + |u.value|] == u.value &&
                         TailAt(s, r + |u.value|).Some?
    requires u.None? ==> TailAt(s, r).Some?
    ensures UnitAt(s, r, alts).Some?
    decreases |alts|
  {
    if alts != [] && u != Some(alts[0]) {
      UnitAtFinds(s, r, alts[1..], u);
    }
  }

  /** Every instance of `(em|…|%)?` and the tail at `r` is found by `UnitAt`. */
  lemma UnitAtComplete(s: string, r: nat, x: Rest)
    requires r <= x.end <= |s| && s[r..x.end] == UnitTailText(x) && GroupsOk(x)
    ensures UnitAt(s, r, Units).Some?
  {
    if x.unit.Some? {
      UnitTailFound(s, r, x);
    } else {
      BareTailFound(s, r, x);
    }
    UnitAtFinds(s, r, Units, x.unit);
  }

  /** A unit written at `r` is followed by a tail the tail search finds, */
  lemma UnitTailFound(s: string, r: nat, x: Rest)
    requires r <= x.end <= |s| && s[r..x.end] == UnitTailText(x) && GroupsOk(x) && x.unit.Some?
    ensures r + |x.unit.value| <= |s| && s[r..r + |x.unit.value|] == x.unit.value
    ensures TailAt(s, r + |x.unit.value|).Some?
  {
    UnitSplit(s, r, x);
    TailAtComplete(s, r + |x.unit.value|, x);
  }

  /** and without a unit, the tail starts at `r`. */
  lemma BareTailFound(s: string, r: nat, x: Rest)
    requires r <= x.end <= |s| && s[r..x.end] == UnitTailText(x) && GroupsOk(x) && x.unit.None?
    ensures TailAt(s, r).Some?
  {
    assert UnitTailText(x) == TailText(x);
    TailAtComplete(s, r, x);
  }

  /** Trying gap lengths from `w` down finds a match when the unit and tail are found
      after a gap of length `g <= w`. */
  lemma {:induction false} GapAtFinds(s: string, q: nat, w: nat, g: nat)
    requires q + w <= |s| && g <= w
    requires UnitAt(s, q + g, Units).Some?
    ensures GapAt(s, q, w).Some?
    decreases w
  {
    if w != g && UnitAt(s, q + w, Units).None? {
      GapAtFinds(s, q, w - 1, g);
    }
  }

  /** The gap and what follows it in the part of a match after its property name. */
  lemma RestParts(s: string, q: nat, x: Rest)
    requires q <= x.end <= |s| && s[q..x.end] == RestText(x)
    ensures q + |x.gap| <= x.end
    ensures s[q..q + |x.gap|] == x.gap
    ensures s[q + |x.gap|..x.end] == UnitTailText(x)
  {
    var t := RestText(x);
    assert t == x.gap + UnitTailText(x);
    assert t[..|x.gap|] == x.gap && t[|x.gap|..] == UnitTailText(x);
    SliceOfSlice(s, q, x.end, t, 0, |x.gap|);
    SliceOfSlice(s, q, x.end, t, |x.gap|, |t|);
  }

  /** Every instance of what follows a property name at `q` is found by `RestAt`. */
  lemma RestAtComplete(s: string, q: nat, x: Rest)
    requires q <= x.end <= |s| && s[q..x.end] == RestText(x) && GroupsOk(x)
    ensures RestAt(s, q).Some?
  {
    RestGap(s, q, x);
    RestFound(s, q, x);
  }

  /** A unit and tail written after a gap within the run of white space at `q` make a
      match of the rest of the regex. */
  lemma RestFound(s: string, q: nat, x: Rest)
    requires q + |x.gap| <= x.end <= |s| && |x.gap| <= SpaceRun(s, q)
    requires s[q + |x.gap|..x.end] == UnitTailText(x) && GroupsOk(x)
    ensures RestAt(s, q).Some?
  {
    UnitAtComplete(s, q + |x.gap|, x);
    GapAtFinds(s, q, SpaceRun(s, q), |x.gap|);
  }

  /** The gap of what follows a property name lies within the run of white space there,
      and the unit and tail follow it. */
  lemma RestGap(s: string, q: nat, x: Rest)
    requires q <= x.end <= |s| && s[q..x.end] == RestText(x) && GroupsOk(x)
    ensures q + |x.gap| <= x.end && |x.gap| <= SpaceRun(s, q)
    ensures s[q + |x.gap|..x.end] == UnitTailText(x)
  {
    RestParts(s, q, x);
    SpacesAt(s, q, x.gap);
    SpaceRunLongest(s, q, |x.gap|);
  }

  /** Trying property-name lengths from `len` down finds a match whose name is at
      least as long as any length `l <= len` after which the rest of the regex matches. */
  lemma {:induction false} NameAtFinds(s: string, p: nat, len: nat, rests: seq<Option<Rest>>, l: nat)
    requires p + |Opener| + len <= |s| && |rests| == |s| + 1
    requires 0 < l <= len && rests[p + |Opener| + l].Some?
    requires p + |Opener| + l < rests[p + |Opener| + l].value.end <= |s|
    ensures NameAt(s, p, len, rests).Some?
    ensures |NameAt(s, p, len, rests).value.propName| >= l
    decreases len
  {
    var q := p + |Opener| + len;
    if rests[q].Some? && q < rests[q].value.end <= |s| {
      NameHit(s, p, len, rests);
    } else {
      NameAtFinds(s, p, len - 1, rests, l);
    }
  }

  /** The three parts of an occurrence of `m`: the opener, the property name and
      the rest. */
  lemma RenderParts(s: string, m: Match)
    requires m.value == Render(m) && OccursIn(s, m)
    ensures m.index + |Opener| + |m.propName| <= RestOf(m).end == End(m)
    ensures s[m.index..m.index + |Opener|] == Opener
    ensures s[m.index + |Opener|..m.index + |Opener| + |m.propName|] == m.propName
    ensures s[m.index + |Opener| + |m.propName|..End(m)] == RestText(RestOf(m))
  {
    var t := Render(m);
    var q := |Opener| + |m.propName|;
    assert t[..|Opener|] == Opener;
    assert t[|Opener|..q] == m.propName;
    assert t[q..] == RestText(RestOf(m));
    SliceOfSlice(s, m.index, End(m), t, 0, |Opener|);
    SliceOfSlice(s, m.index, End(m), t, |Opener|, q);
    SliceOfSlice(s, m.index, End(m), t, q, |t|);
  }

  /** The opener at `p`, then a word of `l` characters after which the rest of the
      regex matches, is found by `MatchAt` with a property name of at least `l`. */
  lemma MatchAtFinds(s: string, p: nat, l: nat)
    requires p + |Opener| + l <= |s| && 0 < l && s[p..p + |Opener|] == Opener
    requires forall i :: p + |Opener| <= i < p + |Opener| + l ==> !IsSpace(s[i])
    requires RestAt(s, p + |Opener| + l).Some?
    ensures MatchAt(s, p, Rests(s)).Some?
    ensures |MatchAt(s, p, Rests(s)).value.propName| >= l
  {
    var rests := Rests(s);
    assert rests[p + |Opener| + l] == RestAt(s, p + |Opener| + l);
    WordRunLongest(s, p + |Opener|, l);
    NameAtFinds(s, p, WordRun(s, p + |Opener|), rests, l);
  }

  /** The regex finds every instance of its grammar, greedily: wherever a well-formed
      match `m` occurs in `s`, the regex matches at `m.index`, with a property name at
      least as long as that of `m`. */
  lemma MatchAtComplete(s: string, m: Match)
    requires WellFormed(m) && OccursIn(s, m)
    ensures MatchAt(s, m.index, Rests(s)).Some?
    ensures |MatchAt(s, m.index, Rests(s)).value.propName| >= |m.propName|
  {
    OccurrenceName(s, m);
    OccurrenceRest(s, m);
    MatchAtFinds(s, m.index, |m.propName|);
  }

  /** An occurrence of `m` starts with the opener and a word of `|m.propName|`
      characters, */
  lemma OccurrenceName(s: string, m: Match)
    requires WellFormed(m) && OccursIn(s, m)
    ensures m.index + |Opener| + |m.propName| <= |s| && 0 < |m.propName|
    ensures s[m.index..m.index + |Opener|] == Opener
    ensures forall i :: m.index + |Opener| <= i < m.index + |Opener| + |m.propName| ==> !IsSpace(s[i])
  {
    RenderParts(s, m);
    WordAt(s, m.index + |Opener|, m.propName);
  }

  /** and goes on with a text the rest of the regex matches. */
  lemma OccurrenceRest(s: string, m: Match)
    requires WellFormed(m) && OccursIn(s, m)
    ensures m.index + |Opener| + |m.propName| <= |s|
    ensures RestAt(s, m.index + |Opener| + |m.propName|).Some?
  {
    RenderParts(s, m);
    RestAtComplete(s, m.index + |Opener| + |m.propName|, RestOf(m));
  }

  /** Every occurrence of the grammar in `s` overlaps one of the matches. */
  lemma MatchesCoverInstances(s: string, m: Match)
    requires WellFormed(m) && OccursIn(s, m)
    ensures exists k :: 0 <= k < |Matches(s)| && Matches(s)[k].index <= m.index < End(Matches(s)[k])
  {
    MatchAtComplete(s, m);
    MatchesComplete(s, m.index);
  }

  // ---------------------------------------------------------------------------
  // A worked example of greediness: in `attr(a)attr(b)` the property name `[\S]+`
  // runs on to the last `)` that leaves a tail, so the regex finds one match whose
  // property name is `a)attr(b`.

  /** At the last position of `s`, only a `)` is matched by the rest of the regex. */
  lemma RestAtLast(s: string, q: nat)
    requires q + 1 == |s| && s[q] == ')'
    ensures RestAt(s, q) == Some(Rest("", None, "", None, |s|))
  {
    var x := Rest("", None, "", None, |s|);
    assert s[q..|s|] == RestText(x);
    RestAtComplete(s, q, x);
    RestAtSound(s, q);
    assert |RestText(RestAt(s, q).value)| == 1;
  }

  /** When everything after an opener is a word ending in `)`, the property name runs
      on to just before that last `)`, over any `)` and `attr(` inside it. */
  lemma GreedyName(s: string, p: nat)
    requires p + |Opener| + 1 < |s| && s[p..p + |Opener|] == Opener && s[|s| - 1] == ')'
    requires forall i :: p + |Opener| <= i < |s| ==> !IsSpace(s[i])
    ensures MatchAt(s, p, Rests(s)) == Some(Match(p, s[p..], s[p + |Opener|..|s| - 1], None, None, "", ""))
  {
    var rests := Rests(s);
    WordRunLongest(s, p + |Opener|, |s| - p - |Opener|);
    assert rests[|s|] == RestAt(s, |s|);
    assert rests[|s| - 1] == RestAt(s, |s| - 1);
    RestAtLast(s, |s| - 1);
    var len := |s| - p - |Opener| - 1;
    assert NameAt(s, p, len + 1, rests) == NameAt(s, p, len, rests);
    NameHit(s, p, len, rests);
    assert s[p..|s|] == s[p..];
  }

  /** The match at position 0 of `attr(a)attr(b)` takes `a)attr(b` as its property
      name. */
  lemma ExampleMatchAt()
    ensures MatchAt("attr(a)attr(b)", 0, Rests("attr(a)attr(b)")) ==
            Some(Match(0, "attr(a)attr(b)", "a)attr(b", None, None, "", ""))
  {
    var s := "attr(a)attr(b)";
    assert s[0..5] == Opener;
    assert s[5..13] == "a)attr(b";
    GreedyName(s, 0);
  }

  /** `attr(a)attr(b)` holds one match, not two. */
  lemma ExampleMatches()
    ensures Matches("attr(a)attr(b)") == [Match(0, "attr(a)attr(b)", "a)attr(b", None, None, "", "")]
  {
    var s := "attr(a)attr(b)";
    var found := Found(s);
    FoundPlaced(s);
    ExampleMatchAt();
    assert found[0] == MatchAt(s, 0, Rests(s));
    assert found[14] == MatchAt(s, 14, Rests(s));
    assert Exec(s, 14, found).None?;
  }
}
