/**
 Normalisation of the performance ids a user selected (`format_selected_ids`).

 The selection arrives either as one comma-separated string or as a list of
 fragments. Blank fragments are dropped; a fragment that is exactly "P" or "F"
 closes the id being built and starts a new one with "PF"; every other
 fragment is appended, unstripped, to the id being built.
 */
module SelectedIds {

  /** The two shapes the selection can arrive in. */
  datatype Selection = Text(raw: string) | Pieces(items: seq<string>)

  /** Python's `str.isspace` on one code point: the characters `str.strip()` removes. */
  predicate IsSpace(c: char) {
    var n := c as int;
    (0x09 <= n <= 0x0D) || (0x1C <= n <= 0x20) || n == 0x85 || n == 0xA0 ||
    n == 0x1680 || (0x2000 <= n <= 0x200A) || n == 0x2028 || n == 0x2029 ||
    n == 0x202F || n == 0x205F || n == 0x3000
  }

  /** `not item.strip()`: the fragment is empty or whitespace only. */
  predicate IsBlank(s: string) {
    forall i :: 0 <= i < |s| ==> IsSpace(s[i])
  }

  /** A fragment that opens a new "PF" id. */
  predicate IsMarker(s: string) {
    s == "P" || s == "F"
  }

  lemma MarkerIsNotBlank(s: string)
    requires IsMarker(s)
    ensures !IsBlank(s)
  {
    assert !IsSpace(s[0]);
  }

  predicate StartsWithPF(s: string) {
    |s| >= 2 && s[0] == 'P' && s[1] == 'F'
  }

  // ---------------------------------------------------------------------------
  // Comma splitting (`str.split(',')`) and its inverse (`','.join`)

  /** `','.join(parts)`. */
  function Join(parts: seq<string>): string
    decreases |parts|
  {
    if |parts| == 0 then ""
    else if |parts| == 1 then parts[0]
    else parts[0] + "," + Join(parts[1..])
  }

  /** `s.split(',')`: always at least one piece, no piece holds a comma, and the pieces rejoin to `s`. */
  function Split(s: string): (parts: seq<string>)
    ensures |parts| >= 1
    ensures forall k :: 0 <= k < |parts| ==> ',' !in parts[k]
    ensures Join(parts) == s
    decreases |s|
  {
    if s == [] then [""]
    else if s[0] == ',' then
      var rest := Split(s[1..]);
      assert s == "," + s[1..];
      [""] + rest
    else
      var rest := Split(s[1..]);
      var parts := [[s[0]] + rest[0]] + rest[1..];
      assert parts[1..] == rest[1..];
      assert s == [s[0]] + s[1..];
      parts
  }

  /** Splitting `p + t` for a comma-free `p` only lengthens the first piece of `t`. */
  lemma {:induction false} SplitCommaFreePrefix(p: string, t: string)
    requires ',' !in p
    ensures Split(p + t) == [p + Split(t)[0]] + Split(t)[1..]
    decreases |p|
  {
    var rest := Split(t);
    if p != [] {
      assert (p + t)[0] == p[0] && (p + t)[1..] == p[1..] + t;
      assert p[0] != ',' by { assert p[0] in p; }
      SplitCommaFreePrefix(p[1..], t);
      var inner := Split(p[1..] + t);
      assert inner[0] == p[1..] + rest[0] && inner[1..] == rest[1..];
      assert Split(p + t) == [[p[0]] + inner[0]] + inner[1..];
      assert [p[0]] + (p[1..] + rest[0]) == p + rest[0];
    } else {
      assert p + t == t;
      assert p + rest[0] == rest[0];
      assert rest == [rest[0]] + rest[1..];
    }
  }

  /** Comma-free pieces survive a join followed by a split. */
  lemma {:induction false} SplitJoin(parts: seq<string>)
    requires |parts| >= 1
    requires forall k :: 0 <= k < |parts| ==> ',' !in parts[k]
    ensures Split(Join(parts)) == parts
    decreases |parts|
  {
    if |parts| == 1 {
      SplitCommaFreePrefix(parts[0], "");
      assert parts[0] + "" == parts[0];
    } else {
      var t := Join(parts[1..]);
      SplitJoin(parts[1..]);
      SplitCommaFreePrefix(parts[0], "," + t);
      assert ("," + t)[0] == ',' && ("," + t)[1..] == t;
      assert Split("," + t) == [""] + parts[1..];
      assert parts[0] + "" == parts[0];
      assert parts == [parts[0]] + parts[1..];
    }
  }

  /** The fragments the normaliser iterates over: the comma-split pieces of a string, a list as it is. */
  function Fragments(sel: Selection): (items: seq<string>)
    ensures sel.Text? ==> |items| >= 1 && Join(items) == sel.raw
    ensures sel.Text? ==> forall k :: 0 <= k < |items| ==> ',' !in items[k]
    ensures sel.Pieces? ==> items == sel.items
  {
    match sel
    case Text(raw) => Split(raw)
    case Pieces(items) => items
  }

  // ---------------------------------------------------------------------------
  // The normaliser as a left fold over the fragments

  /** The loop state: ids closed so far and the id being built. */
  datatype Scan = Scan(formatted: seq<string>, current: string)

  const Start := Scan([], "")

  /** One iteration of the loop over the fragments. */
  function Step(st: Scan, item: string): Scan {
    if IsBlank(item) then st
    else if IsMarker(item) then
      Scan(if st.current != "" then st.formatted + [st.current] else st.formatted, "PF")
    else
      Scan(st.formatted, st.current + item)
  }

  function Run(items: seq<string>, st: Scan): Scan
    decreases |items|
  {
    if items == [] then st else Run(items[1..], Step(st, items[0]))
  }

  /** The final flush: the id being built is emitted when it is not empty. */
  function Flush(st: Scan): seq<string> {
    if st.current != "" then st.formatted + [st.current] else st.formatted
  }

  /** What `format_selected_ids` returns for a list of fragments. */
  function Format(items: seq<string>): seq<string> {
    Flush(Run(items, Start))
  }

  /** `format_selected_ids`: the loop over the fragments, with its final flush. */
  method FormatSelectedIds(sel: Selection) returns (formatted: seq<string>)
    ensures formatted == Format(Fragments(sel))
    ensures forall k :: 0 <= k < |formatted| ==> formatted[k] != ""
    ensures forall k :: 0 < k < |formatted| ==> StartsWithPF(formatted[k])
  {
    var items := Fragments(sel);
    formatted := [];
    var current := "";
    var i := 0;
    while i < |items|
      invariant 0 <= i <= |items|
      invariant Run(items[i..], Scan(formatted, current)) == Run(items, Start)
    {
      var item := items[i];
      assert items[i..][1..] == items[i + 1..];
      if !IsBlank(item) {
        if IsMarker(item) {
          if current != "" {
            formatted := formatted + [current];
          }
          current := "PF";
        } else {
          current := current + item;
        }
      }
      i := i + 1;
    }
    if current != "" {
      formatted := formatted + [current];
    }
    FormatWellFormed(items);
  }

  // ---------------------------------------------------------------------------
  // Shape of the output: no empty id, every id after the first starts with "PF"

  /** The invariant the loop keeps on its state. */
  ghost predicate WellFormed(st: Scan) {
    && (forall k :: 0 <= k < |st.formatted| ==> st.formatted[k] != "")
    && (forall k :: 0 < k < |st.formatted| ==> StartsWithPF(st.formatted[k]))
    && (st.formatted != [] ==> StartsWithPF(st.current))
  }

  lemma StepKeepsWellFormed(st: Scan, item: string)
    requires WellFormed(st)
    ensures WellFormed(Step(st, item))
  {
    if !IsBlank(item) && !IsMarker(item) {
      var c := st.current + item;
      assert st.formatted != [] ==> c[0] == st.current[0] && c[1] == st.current[1];
    }
  }

  lemma {:induction false} RunKeepsWellFormed(items: seq<string>, st: Scan)
    requires WellFormed(st)
    ensures WellFormed(Run(items, st))
    decreases |items|
  {
    if items != [] {
      StepKeepsWellFormed(st, items[0]);
      RunKeepsWellFormed(items[1..], Step(st, items[0]));
    }
  }

  /** The normaliser never emits an empty id, and every id but the first starts with "PF". */
  lemma FormatWellFormed(items: seq<string>)
    ensures forall k :: 0 <= k < |Format(items)| ==> Format(items)[k] != ""
    ensures forall k :: 0 < k < |Format(items)| ==> StartsWithPF(Format(items)[k])
  {
    RunKeepsWellFormed(items, Start);
  }

  // ---------------------------------------------------------------------------
  // Contents: the output concatenates to the kept fragments, markers rewritten

  function Concat(ss: seq<string>): string
    decreases |ss|
  {
    if ss == [] then "" else ss[0] + Concat(ss[1..])
  }

  /** The non-blank fragments, each marker replaced by "PF" and every other fragment kept verbatim. */
  function Rewritten(items: seq<string>): seq<string>
    decreases |items|
  {
    if items == [] then []
    else if IsBlank(items[0]) then Rewritten(items[1..])
    else [if IsMarker(items[0]) then "PF" else items[0]] + Rewritten(items[1..])
  }

  lemma {:induction false} ConcatSnoc(ss: seq<string>, s: string)
    ensures Concat(ss + [s]) == Concat(ss) + s
    decreases |ss|
  {
    if ss != [] {
      assert (ss + [s])[1..] == ss[1..] + [s];
      ConcatSnoc(ss[1..], s);
    }
  }

  /** All text held by a loop state, in order: the closed ids, then the id being built. */
  ghost function Held(st: Scan): string {
    Concat(st.formatted) + st.current
  }

  lemma FlushHeld(st: Scan)
    ensures Concat(Flush(st)) == Held(st)
  {
    ConcatSnoc(st.formatted, st.current);
  }

  /** One step adds exactly the fragment's rewritten text to what the state holds. */
  lemma StepHeld(st: Scan, item: string)
    ensures Held(Step(st, item)) == Held(st) + Concat(Rewritten([item]))
  {
    assert [item][1..] == [];
    if IsBlank(item) {
      assert Rewritten([item]) == [];
    } else {
      var r := if IsMarker(item) then "PF" else item;
      assert Rewritten([item]) == [r];
      assert Concat([r]) == r + Concat([]);
      if IsMarker(item) && st.current != "" {
        ConcatSnoc(st.formatted, st.current);
      }
    }
  }

  lemma ConcatCons(r: string, tail: seq<string>)
    ensures Concat([r] + tail) == r + Concat(tail)
  {
    assert ([r] + tail)[0] == r && ([r] + tail)[1..] == tail;
  }

  lemma {:induction false} RewrittenCons(items: seq<string>)
    requires items != []
    ensures Concat(Rewritten(items)) == Concat(Rewritten([items[0]])) + Concat(Rewritten(items[1..]))
  {
    var tail := Rewritten(items[1..]);
    assert [items[0]][1..] == [];
    assert Rewritten([items[0]][1..]) == [];
    if IsBlank(items[0]) {
      assert Rewritten([items[0]]) == [];
      assert Rewritten(items) == tail;
    } else {
      var r := if IsMarker(items[0]) then "PF" else items[0];
      assert Rewritten([items[0]]) == [r] + [];
      assert Rewritten(items) == [r] + tail;
      ConcatCons(r, []);
      ConcatCons(r, tail);
    }
  }

  /** A run of steps adds exactly the fragments' rewritten text to what the state holds. */
  lemma {:induction false} RunHeld(items: seq<string>, st: Scan)
    ensures Held(Run(items, st)) == Held(st) + Concat(Rewritten(items))
    decreases |items|
  {
    if items != [] {
      var st' := Step(st, items[0]);
      var head := Concat(Rewritten([items[0]]));
      var tail := Concat(Rewritten(items[1..]));
      assert Run(items, st) == Run(items[1..], st');
      RunHeld(items[1..], st');
      StepHeld(st, items[0]);
      RewrittenCons(items);
      assert (Held(st) + head) + tail == Held(st) + (head + tail);
    }
  }

  /** Joining the output ids without separator gives the kept fragments with each "P"/"F" turned into "PF". */
  lemma FormatConcat(items: seq<string>)
    ensures Concat(Format(items)) == Concat(Rewritten(items))
  {
    RunHeld(items, Start);
    FlushHeld(Run(items, Start));
  }

  // ---------------------------------------------------------------------------
  // Count: one id per marker, plus one for text before the first marker

  /** Number of "P"/"F" fragments. */
  function Markers(items: seq<string>): nat
    decreases |items|
  {
    if items == [] then 0
    else (if IsMarker(items[0]) then 1 else 0) + Markers(items[1..])
  }

  /** Some non-blank, non-marker fragment comes before the first marker (or there is no marker). */
  predicate LeadingText(items: seq<string>)
    decreases |items|
  {
    if items == [] then false
    else if IsBlank(items[0]) then LeadingText(items[1..])
    else !IsMarker(items[0])
  }

  lemma {:induction false} RunCount(items: seq<string>, st: Scan)
    ensures |Flush(Run(items, st))|
         == |st.formatted| + Markers(items) + (if st.current != "" || LeadingText(items) then 1 else 0)
    decreases |items|
  {
    if items != [] {
      var item := items[0];
      RunCount(items[1..], Step(st, item));
      if IsMarker(item) {
        MarkerIsNotBlank(item);
      }
      if !IsBlank(item) {
        assert item != "";
        if IsMarker(item) {
          assert !LeadingText(items) && Markers(items) == 1 + Markers(items[1..]);
        } else {
          assert LeadingText(items) && Markers(items) == Markers(items[1..]);
          assert Step(st, item).current != "";
        }
      }
    }
  }

  /** Number of output ids: the markers, plus one when text precedes the first marker. */
  lemma FormatCount(items: seq<string>)
    ensures |Format(items)| == Markers(items) + (if LeadingText(items) then 1 else 0)
  {
    RunCount(items, Start);
  }

  lemma {:induction false} NothingKeptIffAllBlank(items: seq<string>)
    ensures (Markers(items) == 0 && !LeadingText(items)) <==> (forall k :: 0 <= k < |items| ==> IsBlank(items[k]))
    decreases |items|
  {
    if items != [] {
      NothingKeptIffAllBlank(items[1..]);
      if IsMarker(items[0]) {
        MarkerIsNotBlank(items[0]);
      }
      assert forall k :: 1 <= k < |items| ==> items[k] == items[1..][k - 1];
      if !IsBlank(items[0]) {
        assert !(forall k :: 0 <= k < |items| ==> IsBlank(items[k]));
        if IsMarker(items[0]) {
          assert Markers(items) > 0;
        } else {
          assert LeadingText(items);
        }
      }
    }
  }

  /** The output is empty exactly when every fragment is blank (in particular for an empty input). */
  lemma FormatEmptyIffAllBlank(items: seq<string>)
    ensures Format(items) == [] <==> forall k :: 0 <= k < |items| ==> IsBlank(items[k])
  {
    FormatCount(items);
    NothingKeptIffAllBlank(items);
  }

  // ---------------------------------------------------------------------------
  // A marker always starts a fresh id: nothing before it merges with what follows

  lemma {:induction false} RunAppend(a: seq<string>, b: seq<string>, st: Scan)
    ensures Run(a + b, st) == Run(b, Run(a, st))
    decreases |a|
  {
    if a == [] {
      assert a + b == b;
    } else {
      assert (a + b)[0] == a[0] && (a + b)[1..] == a[1..] + b;
      RunAppend(a[1..], b, Step(st, a[0]));
    }
  }

  lemma {:induction false} RunIgnoresClosedIds(items: seq<string>, done: seq<string>, current: string)
    ensures Flush(Run(items, Scan(done, current))) == done + Flush(Run(items, Scan([], current)))
    decreases |items|
  {
    if items == [] {
    } else {
      var item := items[0];
      if IsBlank(item) {
        RunIgnoresClosedIds(items[1..], done, current);
      } else if IsMarker(item) {
        var closed := if current != "" then [current] else [];
        RunIgnoresClosedIds(items[1..], done + closed, "PF");
        RunIgnoresClosedIds(items[1..], closed, "PF");
        assert Step(Scan(done, current), item) == Scan(done + closed, "PF");
        assert Step(Scan([], current), item) == Scan(closed, "PF");
      } else {
        RunIgnoresClosedIds(items[1..], done, current + item);
      }
    }
  }

  /** When `b` starts with a marker, normalising `a + b` is normalising `a` and `b` separately. */
  lemma MarkerStartsNewId(a: seq<string>, b: seq<string>)
    requires |b| > 0 && IsMarker(b[0])
    ensures Format(a + b) == Format(a) + Format(b)
  {
    var st := Run(a, Start);
    RunAppend(a, b, Start);
    MarkerIsNotBlank(b[0]);
    assert b == [b[0]] + b[1..];
    assert Run(b, st) == Run(b[1..], Scan(Flush(st), "PF"));
    assert Run(b, Start) == Run(b[1..], Scan([], "PF"));
    RunIgnoresClosedIds(b[1..], Flush(st), "PF");
  }
}
