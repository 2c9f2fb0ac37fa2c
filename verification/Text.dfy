/** String helpers shared by the path, CSV and tree models. */
module Text {
  /** Characters that Rust's `char::is_whitespace` accepts. */
  predicate RustSpace(c: char) {
    var k := c as int;
    9 <= k <= 13 || k == 0x20 || k == 0x85 || k == 0xA0 || k == 0x1680 || 0x2000 <= k <= 0x200A
    || k == 0x2028 || k == 0x2029 || k == 0x202F || k == 0x205F || k == 0x3000
  }

  /** Characters that `\s` matches and `trim` removes in JavaScript. */
  predicate JsSpace(c: char) {
    (RustSpace(c) && c as int != 0x85) || c as int == 0xFEFF
  }

  /** The 25 characters Unicode calls white space; JavaScript leaves out NEXT LINE and takes the byte order mark. */
  lemma WhiteSpace(c: char)
    ensures RustSpace(c) <==> c as int in {
      0x9, 0xA, 0xB, 0xC, 0xD, 0x20, 0x85, 0xA0, 0x1680, 0x2000, 0x2001, 0x2002, 0x2003, 0x2004, 0x2005, 0x2006,
      0x2007, 0x2008, 0x2009, 0x200A, 0x2028, 0x2029, 0x202F, 0x205F, 0x3000}
    ensures JsSpace(c) <==> c as int == 0xFEFF || (RustSpace(c) && c as int != 0x85)
  {
  }

  /** What is cut off both ends of a text: white space by either language's rule, or slashes. */
  datatype Edge = RustSpaces | JsSpaces | Slashes

  predicate Drops(edge: Edge, c: char) {
    match edge case RustSpaces => RustSpace(c) case JsSpaces => JsSpace(c) case Slashes => c == '/'
  }

  function TrimFront(s: string, edge: Edge): (t: string)
    ensures t != "" ==> !Drops(edge, t[0])
    ensures forall c :: c in t ==> c in s
  {
    if s != "" && Drops(edge, s[0]) then TrimFront(s[1..], edge) else s
  }

  function TrimBack(s: string, edge: Edge): (t: string)
    ensures t != "" ==> s != "" && t[0] == s[0] && !Drops(edge, t[|t| - 1])
    ensures forall c :: c in t ==> c in s
  {
    if s != "" && Drops(edge, s[|s| - 1]) then TrimBack(s[..|s| - 1], edge) else s
  }

  function Trim(s: string, edge: Edge): (t: string)
    ensures t != "" ==> !Drops(edge, t[0]) && !Drops(edge, t[|t| - 1])
    ensures forall c :: c in t ==> c in s
  {
    TrimBack(TrimFront(s, edge), edge)
  }

  predicate AllDropped(s: string, edge: Edge) {
    forall i :: 0 <= i < |s| ==> Drops(edge, s[i])
  }

  /** `t` is what is left of `s` when everything that may go at its two ends has gone, and nothing else. */
  predicate IsCore(s: string, front: string, t: string, back: string, edge: Edge) {
    && s == front + t + back && AllDropped(front, edge) && AllDropped(back, edge)
    && (t != "" ==> !Drops(edge, t[0]) && !Drops(edge, t[|t| - 1]))
  }

  lemma {:induction false} TrimFrontCuts(s: string, edge: Edge) returns (front: string)
    ensures s == front + TrimFront(s, edge) && AllDropped(front, edge)
  {
    front := "";
    if s != "" && Drops(edge, s[0]) {
      var rest := TrimFrontCuts(s[1..], edge);
      front := [s[0]] + rest;
    }
  }

  lemma {:induction false} TrimBackCuts(s: string, edge: Edge) returns (back: string)
    ensures s == TrimBack(s, edge) + back && AllDropped(back, edge)
  {
    back := "";
    if s != "" && Drops(edge, s[|s| - 1]) {
      var rest := TrimBackCuts(s[..|s| - 1], edge);
      back := rest + [s[|s| - 1]];
    }
  }

  /** Trimming cuts off just that. */
  lemma TrimIsCore(s: string, edge: Edge) returns (front: string, back: string)
    ensures IsCore(s, front, Trim(s, edge), back, edge)
  {
    front := TrimFrontCuts(s, edge);
    back := TrimBackCuts(TrimFront(s, edge), edge);
    assert front + (Trim(s, edge) + back) == front + Trim(s, edge) + back;
  }

  /** `parts.join(sep)`. */
  function Join(parts: seq<string>, sep: string): string {
    if parts == [] then ""
    else if |parts| == 1 then parts[0]
    else parts[0] + sep + Join(parts[1..], sep)
  }

  /** `s.split(sep)` for a one-character separator; always at least one part. */
  function Split(s: string, sep: char): (parts: seq<string>)
    ensures |parts| > 0
    ensures forall i :: 0 <= i < |parts| ==> sep !in parts[i]
  {
    if s == "" then [""]
    else
      var rest := Split(s[1..], sep);
      if s[0] == sep then [""] + rest else [[s[0]] + rest[0]] + rest[1..]
  }

  lemma {:induction false} JoinSplit(s: string, sep: char)
    ensures Join(Split(s, sep), [sep]) == s
  {
    if s != "" {
      JoinSplit(s[1..], sep);
      var rest := Split(s[1..], sep);
      if s[0] == sep {
        assert ([""] + rest)[1..] == rest;
      } else {
        var parts := [[s[0]] + rest[0]] + rest[1..];
        assert parts[1..] == rest[1..];
        if |rest| == 1 {
        } else {
          assert Join(parts, [sep]) == [s[0]] + rest[0] + [sep] + Join(rest[1..], [sep]);
        }
      }
    }
  }

  lemma SplitCons(c: char, s: string, sep: char)
    ensures var rest := Split(s, sep);
      Split([c] + s, sep) == if c == sep then [""] + rest else [[c] + rest[0]] + rest[1..]
  {
    assert ([c] + s)[1..] == s;
  }

  lemma SplitEmpty(sep: char)
    ensures Split("", sep) == [""]
  {
  }

  /** Splitting at a separator splits the parts. */
  lemma {:induction false} SplitConcat(a: string, b: string, sep: char)
    ensures Split(a + [sep] + b, sep) == Split(a, sep) + Split(b, sep)
  {
    hide Split;
    if a == "" {
      SplitEmpty(sep);
      SplitCons(sep, b, sep);
      assert a + [sep] + b == [sep] + b;
    } else {
      SplitConcat(a[1..], b, sep);
      SplitCons(a[0], a[1..], sep);
      SplitCons(a[0], a[1..] + [sep] + b, sep);
      assert a == [a[0]] + a[1..];
      assert a + [sep] + b == [a[0]] + (a[1..] + [sep] + b);
      ConsConcat(a[0], Split(a[1..], sep), Split(b, sep));
    }
  }

  lemma ConsConcat(c: char, x: seq<string>, y: seq<string>)
    requires x != []
    ensures [""] + (x + y) == [""] + x + y
    ensures [[c] + (x + y)[0]] + (x + y)[1..] == [[c] + x[0]] + x[1..] + y
  {
  }

  lemma {:induction false} SplitWhole(s: string, sep: char)
    requires sep !in s
    ensures Split(s, sep) == [s]
  {
    if s != "" {
      assert s[0] in s;
      SplitWhole(s[1..], sep);
      assert [s[0]] + s[1..] == s;
    }
  }

  lemma {:induction false} SplitJoin(parts: seq<string>, sep: char)
    requires |parts| > 0
    requires forall i :: 0 <= i < |parts| ==> sep !in parts[i]
    ensures Split(Join(parts, [sep]), sep) == parts
  {
    SplitWhole(parts[0], sep);
    if |parts| > 1 {
      SplitJoin(parts[1..], sep);
      SplitConcat(parts[0], Join(parts[1..], [sep]), sep);
      assert parts == [parts[0]] + parts[1..];
    }
  }

  lemma {:induction false} JoinAppend(parts: seq<string>, last: string, sep: string)
    requires |parts| > 0
    ensures Join(parts + [last], sep) == Join(parts, sep) + sep + last
  {
    if |parts| > 1 {
      JoinAppend(parts[1..], last, sep);
      assert (parts + [last])[1..] == parts[1..] + [last];
    } else {
      assert (parts + [last])[1..] == [last];
    }
  }

  lemma {:induction false} JoinConcat(a: seq<string>, b: seq<string>, sep: string)
    requires |a| > 0 && |b| > 0
    ensures Join(a + b, sep) == Join(a, sep) + sep + Join(b, sep)
  {
    if |a| == 1 {
      assert (a + b)[1..] == b;
    } else {
      JoinConcat(a[1..], b, sep);
      assert (a + b)[1..] == a[1..] + b;
    }
  }
}
