/** `FileUtility.sanitizeFileName`: three whole-string regular-expression replacements, each
    modelled as a recursive function over the characters, and the properties of their composition. */
module FileUtility {
  import opened Strings

  /** The characters the first replacement leaves alone, `[a-zA-Z0-9.]`. */
  predicate IsKept(c: char)
  {
    'a' <= c <= 'z' || 'A' <= c <= 'Z' || '0' <= c <= '9' || c == '.'
  }

  /** The characters a sanitized name can contain: the kept ones and the substitute `-`. */
  predicate IsSafe(c: char) { IsKept(c) || c == '-' }

  predicate AllKept(s: string) { forall i :: 0 <= i < |s| ==> IsKept(s[i]) }

  predicate AllSafe(s: string) { forall i :: 0 <= i < |s| ==> IsSafe(s[i]) }

  /** No two adjacent dashes. */
  ghost predicate NoDoubleDash(s: string)
  {
    forall i, j :: 0 <= i < j < |s| && j == i + 1 ==> !(s[i] == '-' && s[j] == '-')
  }

  /** Neither the first nor the last character is a dash. */
  predicate NoEdgeDash(s: string)
  {
    s == [] || (s[0] != '-' && s[|s| - 1] != '-')
  }

  /** The kept characters of `s`, in order. */
  function KeptOnly(s: string): string
  {
    if s == [] then [] else (if IsKept(s[0]) then [s[0]] else []) + KeptOnly(s[1..])
  }

  /** `s` with every dash deleted. */
  function WithoutDashes(s: string): string
  {
    if s == [] then [] else (if s[0] == '-' then [] else [s[0]]) + WithoutDashes(s[1..])
  }

  lemma {:induction false} WithoutDashesAppend(a: string, b: string)
    ensures WithoutDashes(a + b) == WithoutDashes(a) + WithoutDashes(b)
    decreases |a|
  {
    if a == [] {
      assert a + b == b;
    } else {
      assert (a + b)[1..] == a[1..] + b;
      WithoutDashesAppend(a[1..], b);
    }
  }

  // ---------------------------------------------------------------------------
  // The three replacements
  // ---------------------------------------------------------------------------

  /** Step 1, `replace(/[^a-zA-Z0-9.]/g, '-')`. */
  function ReplaceDisallowed(s: string): string
  {
    if s == [] then [] else [if IsKept(s[0]) then s[0] else '-'] + ReplaceDisallowed(s[1..])
  }

  /** Step 1 keeps every kept character in place and puts a dash at every other position. */
  lemma {:induction false} ReplaceDisallowedSpec(s: string)
    ensures var r := ReplaceDisallowed(s);
      |r| == |s| && AllSafe(r)
      && (forall i :: 0 <= i < |s| ==> (r[i] == '-' <==> !IsKept(s[i])))
      && (forall i :: 0 <= i < |s| && IsKept(s[i]) ==> r[i] == s[i])
      && WithoutDashes(r) == KeptOnly(s)
    decreases |s|
  {
    if s != [] {
      ReplaceDisallowedSpec(s[1..]);
      var r := ReplaceDisallowed(s);
      assert r[1..] == ReplaceDisallowed(s[1..]);
    }
  }

  /** Step 2, `replace(/-+/g, '-')`. */
  function CollapseDashes(s: string): string
  {
    if |s| <= 1 then s
    else if s[0] == '-' && s[1] == '-' then CollapseDashes(s[1..])
    else [s[0]] + CollapseDashes(s[1..])
  }

  /** Step 2 leaves no two adjacent dashes, deletes nothing but dashes, keeps the first and the
      last character, and brings in no new character. */
  lemma {:induction false} CollapseDashesSpec(s: string)
    ensures var r := CollapseDashes(s);
      |r| <= |s| && NoDoubleDash(r)
      && (AllSafe(s) ==> AllSafe(r))
      && WithoutDashes(r) == WithoutDashes(s)
      && (|s| > 0 ==> |r| > 0 && r[0] == s[0] && r[|r| - 1] == s[|s| - 1])
    decreases |s|
  {
    if |s| > 1 {
      var t := CollapseDashes(s[1..]);
      CollapseDashesSpec(s[1..]);
      if !(s[0] == '-' && s[1] == '-') {
        var r := [s[0]] + t;
        assert r[1..] == t;
        assert forall i :: 1 <= i < |r| ==> r[i] == t[i - 1];
      }
    }
  }

  /** Step 2 shortens a run of two or more dashes by one dash wherever it stands; with
      `CollapseDashesFixpoint` this leaves exactly one dash per run and nothing else changed. */
  lemma {:induction false} CollapseDropsDoubled(a: string, b: string)
    ensures CollapseDashes(a + "--" + b) == CollapseDashes(a + "-" + b)
    decreases |a|
  {
    var s, t := a + "--" + b, a + "-" + b;
    if a == [] {
      assert s == "--" + b && t == "-" + b;
      assert s[1..] == t;
    } else {
      assert s[1..] == a[1..] + "--" + b;
      assert t[1..] == a[1..] + "-" + b;
      assert s[0] == t[0] == a[0];
      assert s[1] == t[1];
      CollapseDropsDoubled(a[1..], b);
    }
  }

  /** Step 3, first alternative of `replace(/^-+|-+$/g, '')`: the leading dashes go. */
  function TrimLeadingDashes(s: string): string
  {
    if s != [] && s[0] == '-' then TrimLeadingDashes(s[1..]) else s
  }

  /** The result is a suffix, what was cut off is all dashes, and it does not start with one. */
  lemma {:induction false} TrimLeadingSpec(s: string)
    ensures var r := TrimLeadingDashes(s);
      |r| <= |s| && r == s[|s| - |r|..]
      && (forall i :: 0 <= i < |s| - |r| ==> s[i] == '-')
      && (r == [] || r[0] != '-')
      && WithoutDashes(r) == WithoutDashes(s)
    decreases |s|
  {
    if s != [] && s[0] == '-' {
      TrimLeadingSpec(s[1..]);
    }
  }

  /** Step 3, second alternative of `replace(/^-+|-+$/g, '')`: the trailing dashes go. */
  function TrimTrailingDashes(s: string): string
  {
    if s != [] && s[|s| - 1] == '-' then TrimTrailingDashes(s[..|s| - 1]) else s
  }

  /** The result is a prefix, what was cut off is all dashes, and it does not end with one. */
  lemma {:induction false} TrimTrailingSpec(s: string)
    ensures var r := TrimTrailingDashes(s);
      |r| <= |s| && r == s[..|r|]
      && (forall i :: |r| <= i < |s| ==> s[i] == '-')
      && (r == [] || r[|r| - 1] != '-')
      && WithoutDashes(r) == WithoutDashes(s)
    decreases |s|
  {
    if s != [] && s[|s| - 1] == '-' {
      TrimTrailingSpec(s[..|s| - 1]);
      WithoutDashesAppend(s[..|s| - 1], [s[|s| - 1]]);
      assert s == s[..|s| - 1] + [s[|s| - 1]];
    }
  }

  /** `FileUtility.sanitizeFileName`. The result uses only `[A-Za-z0-9.-]`, has no `--`, does not
      start or end with `-`, is no longer than the input, and deleting its dashes leaves exactly
      the input's kept characters in their original order. */
  function SanitizeFileName(fileName: string): (r: string)
    ensures AllSafe(r)
    ensures NoDoubleDash(r)
    ensures NoEdgeDash(r)
    ensures |r| <= |fileName|
    ensures WithoutDashes(r) == KeptOnly(fileName)
  {
    var replaced := ReplaceDisallowed(fileName);
    var collapsed := CollapseDashes(replaced);
    var leading := TrimLeadingDashes(collapsed);
    ReplaceDisallowedSpec(fileName);
    CollapseDashesSpec(replaced);
    TrimLeadingSpec(collapsed);
    TrimTrailingSpec(leading);
    TrimTrailingDashes(leading)
  }

  // ---------------------------------------------------------------------------
  // Fixed points and idempotence
  // ---------------------------------------------------------------------------

  lemma {:induction false} ReplaceDisallowedFixpoint(s: string)
    requires AllSafe(s)
    ensures ReplaceDisallowed(s) == s
    decreases |s|
  {
    if s != [] {
      ReplaceDisallowedFixpoint(s[1..]);
      assert [s[0]] + s[1..] == s;
    }
  }

  lemma {:induction false} CollapseDashesFixpoint(s: string)
    requires NoDoubleDash(s)
    ensures CollapseDashes(s) == s
    decreases |s|
  {
    if |s| > 1 {
      assert NoDoubleDash(s[1..]) by {
        forall i, j | 0 <= i < j < |s[1..]| && j == i + 1
          ensures !(s[1..][i] == '-' && s[1..][j] == '-')
        {
          assert s[1..][i] == s[i + 1] && s[1..][j] == s[j + 1];
        }
      }
      CollapseDashesFixpoint(s[1..]);
      assert !(s[0] == '-' && s[1] == '-');
      assert [s[0]] + s[1..] == s;
    }
  }

  /** The names sanitizeFileName leaves unchanged are exactly the names it can produce. */
  lemma SanitizeFixedPoints(s: string)
    ensures SanitizeFileName(s) == s <==> AllSafe(s) && NoDoubleDash(s) && NoEdgeDash(s)
  {
    if AllSafe(s) && NoDoubleDash(s) && NoEdgeDash(s) {
      ReplaceDisallowedFixpoint(s);
      CollapseDashesFixpoint(s);
    }
  }

  /** Sanitizing twice is the same as sanitizing once. */
  lemma SanitizeIdempotent(s: string)
    ensures SanitizeFileName(SanitizeFileName(s)) == SanitizeFileName(s)
  {
    SanitizeFixedPoints(SanitizeFileName(s));
  }

  /** A name made only of `[A-Za-z0-9.]` comes back unchanged. */
  lemma SanitizeKeepsCleanName(s: string)
    requires AllKept(s)
    ensures SanitizeFileName(s) == s
  {
    SanitizeFixedPoints(s);
  }

  lemma {:induction false} OnlyDashesLeft(s: string)
    requires WithoutDashes(s) == []
    ensures forall i :: 0 <= i < |s| ==> s[i] == '-'
    decreases |s|
  {
    if s != [] {
      OnlyDashesLeft(s[1..]);
      assert forall i :: 1 <= i < |s| ==> s[i] == s[1..][i - 1];
    }
  }

  /** A name with no character of `[A-Za-z0-9.]`, the empty name included, sanitizes to `""`. */
  lemma SanitizeNothingKept(s: string)
    requires KeptOnly(s) == []
    ensures SanitizeFileName(s) == []
  {
    OnlyDashesLeft(SanitizeFileName(s));
  }

  // ---------------------------------------------------------------------------
  // An independent description: the words of the name joined by single dashes
  // ---------------------------------------------------------------------------

  /** The maximal runs of kept characters of `s`, in order. */
  function Words(s: string): (ws: seq<string>)
    ensures forall i :: 0 <= i < |ws| ==> |ws[i]| > 0 && AllKept(ws[i])
    ensures |s| > 0 && IsKept(s[0]) ==> |ws| > 0
    decreases |s|
  {
    if s == [] then []
    else if !IsKept(s[0]) then Words(s[1..])
    else
      var ws := Words(s[1..]);
      if |s| > 1 && IsKept(s[1]) then [[s[0]] + ws[0]] + ws[1..]
      else [[s[0]]] + ws
  }

  /** Steps 1 and 2 together. */
  function Collapsed(s: string): string
  {
    CollapseDashes(ReplaceDisallowed(s))
  }

  lemma CollapsedFront(x: string)
    requires x != []
    ensures Collapsed(x) != [] && (Collapsed(x)[0] == '-' <==> !IsKept(x[0]))
    ensures NoDoubleDash(Collapsed(x))
  {
    ReplaceDisallowedSpec(x);
    CollapseDashesSpec(ReplaceDisallowed(x));
  }

  lemma CollapsedCons(c: char, x: string)
    ensures IsKept(c) ==> Collapsed([c] + x) == [c] + Collapsed(x)
    ensures !IsKept(c) ==> TrimLeadingDashes(Collapsed([c] + x)) == TrimLeadingDashes(Collapsed(x))
  {
    var s := [c] + x;
    assert s[1..] == x;
    var y := ReplaceDisallowed(x);
    var d := if IsKept(c) then c else '-';
    assert ReplaceDisallowed(s) == [d] + y;
    assert ([d] + y)[1..] == y;
    if y == [] {
      assert CollapseDashes([d] + y) == [d];
    } else if !IsKept(c) && y[0] != '-' {
      var p := CollapseDashes(y);
      assert CollapseDashes([d] + y) == ['-'] + p;
      assert (['-'] + p)[1..] == p;
    }
  }

  lemma {:induction false} TrimTrailingCons(d: char, w: string)
    ensures TrimTrailingDashes([d] + w)
         == if TrimTrailingDashes(w) == [] then TrimTrailingDashes([d]) else [d] + TrimTrailingDashes(w)
    decreases |w|
  {
    if w == [] {
      assert [d] + w == [d];
    } else if w[|w| - 1] == '-' {
      assert ([d] + w)[..|w|] == [d] + w[..|w| - 1];
      TrimTrailingCons(d, w[..|w| - 1]);
    }
  }

  lemma SanitizeConsDisallowed(c: char, x: string)
    requires !IsKept(c)
    ensures SanitizeFileName([c] + x) == SanitizeFileName(x)
  {
    CollapsedCons(c, x);
  }

  lemma SanitizeConsKeptJoined(c: char, x: string)
    requires IsKept(c)
    requires x == [] || IsKept(x[0])
    ensures SanitizeFileName([c] + x) == [c] + SanitizeFileName(x)
  {
    CollapsedCons(c, x);
    var p := Collapsed(x);
    assert TrimLeadingDashes([c] + p) == [c] + p;
    TrimTrailingCons(c, p);
    assert TrimTrailingDashes([c]) == [c];
    if x != [] {
      CollapsedFront(x);
    }
    assert TrimLeadingDashes(p) == p;
  }

  lemma SanitizeConsKeptSeparated(c: char, x: string)
    requires IsKept(c)
    requires x != [] && !IsKept(x[0])
    ensures var t := SanitizeFileName(x);
      SanitizeFileName([c] + x) == if t == [] then [c] else [c] + "-" + t
  {
    CollapsedCons(c, x);
    var p := Collapsed(x);
    assert TrimLeadingDashes([c] + p) == [c] + p;
    TrimTrailingCons(c, p);
    assert TrimTrailingDashes([c]) == [c];
    CollapsedFront(x);
    var w := p[1..];
    assert p == ['-'] + w;
    assert w == [] || w[0] != '-' by {
      if w != [] {
        assert w[0] == p[1];
      }
    }
    assert TrimLeadingDashes(p) == w;
    TrimTrailingCons('-', w);
    assert TrimTrailingDashes("-") == [];
  }

  /** How sanitizeFileName treats one more character in front of a name: a disallowed one
      vanishes; a kept one is prepended, followed by a dash when the rest of the name begins
      with a disallowed character and still has something to keep. */
  lemma SanitizeCons(c: char, x: string)
    ensures !IsKept(c) ==> SanitizeFileName([c] + x) == SanitizeFileName(x)
    ensures IsKept(c) && (x == [] || IsKept(x[0])) ==>
      SanitizeFileName([c] + x) == [c] + SanitizeFileName(x)
    ensures IsKept(c) && x != [] && !IsKept(x[0]) ==>
      SanitizeFileName([c] + x)
      == if SanitizeFileName(x) == [] then [c] else [c] + "-" + SanitizeFileName(x)
  {
    if IsKept(c) {
      if x != [] && !IsKept(x[0]) {
        SanitizeConsKeptSeparated(c, x);
      } else {
        SanitizeConsKeptJoined(c, x);
      }
    } else {
      SanitizeConsDisallowed(c, x);
    }
  }

  lemma JoinWithCons(c: char, w: string, ws: seq<string>, sep: string)
    ensures JoinWith([[c] + w] + ws, sep) == [c] + JoinWith([w] + ws, sep)
  {
    assert ([[c] + w] + ws)[1..] == ws;
    assert ([w] + ws)[1..] == ws;
  }

  /** sanitizeFileName keeps the maximal runs of `[A-Za-z0-9.]` of the name and joins them with
      single dashes; everything else in the name only decides where those dashes go. */
  lemma {:induction false} SanitizeIsJoinedWords(s: string)
    ensures SanitizeFileName(s) == JoinWith(Words(s), "-")
    decreases |s|
  {
    if s != [] {
      var c, x := s[0], s[1..];
      assert s == [c] + x;
      SanitizeIsJoinedWords(x);
      SanitizeCons(c, x);
      if IsKept(c) {
        var ws := Words(x);
        if x != [] && IsKept(x[0]) {
          JoinWithCons(c, ws[0], ws[1..], "-");
          assert [ws[0]] + ws[1..] == ws;
        } else {
          assert Words(s) == [[c]] + ws;
          assert JoinWith(ws, "-") == [] <==> ws == [];
          if ws != [] {
            assert ([[c]] + ws)[1..] == ws;
          }
        }
      }
    }
  }
}
