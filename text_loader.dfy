/**
 * The text-list loader of FloatingText: pick the content of the first
 * candidate file that could be read, split it into lines, drop the empty
 * ones, and fall back to a single placeholder line.
 *
 * The file system is not modelled: the read of candidate `i` is `results[i]`,
 * `None` when that read failed for any reason.
 */
module TextLoader {
  import opened Wrappers

  /** The line shown when no usable text file was found. */
  const Placeholder: string := "No texts loaded - create demo_texts.txt"

  /**
   * The characters on which the content is split (Foundation's own set of
   * newline characters): U+000A to U+000D, U+0085, U+2028 and U+2029.
   * Each one separates on its own, so "\r\n" separates twice.
   */
  predicate IsNewline(c: char) {
    c == '\n' || c == '\U{000B}' || c == '\U{000C}' || c == '\r'
    || c == '\U{0085}' || c == '\U{2028}' || c == '\U{2029}'
  }

  predicate NewlineFree(s: string) {
    forall i :: 0 <= i < |s| ==> !IsNewline(s[i])
  }

  // ---------------------------------------------------------------------
  // First readable candidate
  // ---------------------------------------------------------------------

  /** The content of the first candidate whose read succeeded, if any. */
  function FirstReadable(results: seq<Option<string>>): (r: Option<string>)
    ensures r.None? <==> forall j :: 0 <= j < |results| ==> results[j].None?
  {
    if |results| == 0 then None
    else if results[0].Some? then results[0]
    else FirstReadable(results[1..])
  }

  /** FirstReadable answers with the first candidate whose read succeeded. */
  lemma {:induction false} FirstReadableIsFirst(results: seq<Option<string>>, k: nat)
    requires k < |results| && results[k].Some?
    requires forall j :: 0 <= j < k ==> results[j].None?
    ensures FirstReadable(results) == results[k]
  {
    if k > 0 {
      FirstReadableIsFirst(results[1..], k - 1);
    }
  }

  /**
   * Candidates after the first success are never consulted: two read
   * sequences that agree up to it give the same answer.
   */
  lemma FirstReadableIgnoresLater(a: seq<Option<string>>, b: seq<Option<string>>, k: nat)
    requires k < |a| && k < |b| && a[..k + 1] == b[..k + 1]
    requires a[k].Some? && forall j :: 0 <= j < k ==> a[j].None?
    ensures FirstReadable(a) == FirstReadable(b) == a[k]
  {
    assert forall j :: 0 <= j <= k ==> a[j] == a[..k + 1][j] == b[j];
    FirstReadableIsFirst(a, k);
    FirstReadableIsFirst(b, k);
  }

  /**
   * The candidate loop of loadTexts: try each read in order and stop at
   * the first that succeeds. `tried` is the number of candidates looked at.
   */
  method FirstReadableContent(results: seq<Option<string>>) returns (content: Option<string>, tried: nat)
    ensures content == FirstReadable(results)
    ensures tried <= |results|
    ensures forall j :: 0 <= j < tried - 1 ==> results[j].None?
    ensures content.Some? ==> 0 < tried && results[tried - 1] == content
    ensures content.None? ==> tried == |results|
  {
    content := None;
    tried := 0;
    while tried < |results|
      invariant tried <= |results|
      invariant forall j :: 0 <= j < tried ==> results[j].None?
      invariant FirstReadable(results) == FirstReadable(results[tried..])
    {
      var candidate := results[tried];
      assert results[tried..][1..] == results[tried + 1..];
      tried := tried + 1;
      if candidate.Some? {
        content := candidate;
        break;
      }
    }
  }

  // ---------------------------------------------------------------------
  // Splitting on newline characters
  // ---------------------------------------------------------------------

  /**
   * The newline-separated components of `s`, empty ones included:
   * one more component than there are newline characters.
   */
  function Components(s: string): (r: seq<string>)
    ensures |r| == |Separators(s)| + 1
    ensures forall i :: 0 <= i < |r| ==> NewlineFree(r[i])
  {
    if |s| == 0 then [""]
    else if IsNewline(s[0]) then [""] + Components(s[1..])
    else
      var rest := Components(s[1..]);
      [[s[0]] + rest[0]] + rest[1..]
  }

  /** The newline characters of `s`, in order. */
  function Separators(s: string): (r: string)
    ensures |r| <= |s|
    ensures forall i :: 0 <= i < |r| ==> IsNewline(r[i])
  {
    if |s| == 0 then []
    else if IsNewline(s[0]) then [s[0]] + Separators(s[1..])
    else Separators(s[1..])
  }

  /** The separators are all of the content's newline characters, each as often as it occurs. */
  lemma {:induction false} SeparatorsAreAllNewlines(s: string)
    ensures forall c :: IsNewline(c) ==> multiset(Separators(s))[c] == multiset(s)[c]
  {
    if |s| > 0 {
      SeparatorsAreAllNewlines(s[1..]);
      assert s == [s[0]] + s[1..];
    }
  }

  /**
   * The separators keep the content's order: those of a concatenation are
   * those of the first part followed by those of the second, and a single
   * character is a separator exactly when it is a newline.
   */
  lemma {:induction false} SeparatorsInOrder(a: string, b: string)
    ensures Separators(a + b) == Separators(a) + Separators(b)
    ensures |a| == 1 ==> Separators(a) == if IsNewline(a[0]) then a else []
  {
    if |a| > 0 {
      assert (a + b)[1..] == a[1..] + b;
      assert (a + b)[0] == a[0];
      SeparatorsInOrder(a[1..], b);
    } else {
      assert a + b == b;
    }
  }

  /** Puts `parts` back together with `seps[i]` between `parts[i]` and `parts[i + 1]`. */
  function Interleave(parts: seq<string>, seps: string): string
    requires |parts| == |seps| + 1
  {
    if |seps| == 0 then parts[0]
    else parts[0] + [seps[0]] + Interleave(parts[1..], seps[1..])
  }

  /** Splitting loses nothing: the components and the separators rebuild the content. */
  lemma {:induction false} ComponentsRoundTrip(s: string)
    ensures Interleave(Components(s), Separators(s)) == s
  {
    if |s| == 0 {
    } else if IsNewline(s[0]) {
      ComponentsRoundTrip(s[1..]);
      assert Components(s)[1..] == Components(s[1..]);
      assert [s[0]] + s[1..] == s;
    } else {
      ComponentsRoundTrip(s[1..]);
      var rest := Components(s[1..]);
      var seps := Separators(s[1..]);
      assert Separators(s) == seps;
      var r := Components(s);
      assert r[0] == [s[0]] + rest[0];
      if |seps| == 0 {
        assert s == [s[0]] + s[1..];
      } else {
        assert r[1..] == rest[1..];
        calc {
          Interleave(r, seps);
          r[0] + [seps[0]] + Interleave(r[1..], seps[1..]);
          [s[0]] + (rest[0] + [seps[0]] + Interleave(rest[1..], seps[1..]));
          [s[0]] + Interleave(rest, seps);
          [s[0]] + s[1..];
          s;
        }
      }
    }
  }

  /**
   * The split is the only one of its kind: any newline-free parts that
   * rebuild `s` with newline separators are exactly Components(s).
   */
  lemma {:induction false} ComponentsUnique(s: string, parts: seq<string>, seps: string)
    requires |parts| == |seps| + 1
    requires forall i :: 0 <= i < |parts| ==> NewlineFree(parts[i])
    requires forall i :: 0 <= i < |seps| ==> IsNewline(seps[i])
    requires Interleave(parts, seps) == s
    ensures parts == Components(s) && seps == Separators(s)
    decreases |s|
  {
    if |seps| == 0 {
      NewlineFreeHasNoSeparators(s);
    } else if |parts[0]| == 0 {
      var tail := Interleave(parts[1..], seps[1..]);
      assert s == [seps[0]] + tail;
      assert s[1..] == tail;
      assert forall i :: 0 <= i < |parts[1..]| ==> NewlineFree(parts[1..][i]) by {
        forall i | 0 <= i < |parts[1..]| ensures NewlineFree(parts[1..][i]) {
          assert parts[1..][i] == parts[i + 1];
        }
      }
      ComponentsUnique(tail, parts[1..], seps[1..]);
      assert parts == [""] + parts[1..];
      assert seps == [seps[0]] + seps[1..];
    } else {
      var c := parts[0][0];
      var shorter := [parts[0][1..]] + parts[1..];
      assert !IsNewline(c) by { assert NewlineFree(parts[0]); }
      assert shorter[1..] == parts[1..];
      assert forall i :: 0 <= i < |shorter| ==> NewlineFree(shorter[i]) by {
        forall i | 0 <= i < |shorter| ensures NewlineFree(shorter[i]) {
          if i == 0 {
            assert NewlineFree(parts[0]);
            assert forall j :: 0 <= j < |parts[0][1..]| ==> parts[0][1..][j] == parts[0][j + 1];
          } else {
            assert shorter[i] == parts[i];
          }
        }
      }
      assert s == [c] + Interleave(shorter, seps) by {
        assert parts[0] == [c] + parts[0][1..];
      }
      assert s[0] == c;
      assert s[1..] == Interleave(shorter, seps);
      ComponentsUnique(s[1..], shorter, seps);
      var rest := Components(s[1..]);
      assert parts == [[c] + rest[0]] + rest[1..] by {
        assert parts[0] == [c] + shorter[0];
      }
    }
  }

  /** A string without newline characters is its own single component. */
  lemma {:induction false} NewlineFreeHasNoSeparators(s: string)
    requires NewlineFree(s)
    ensures Separators(s) == [] && Components(s) == [s]
  {
    if |s| > 0 {
      assert NewlineFree(s[1..]) by {
        forall i | 0 <= i < |s[1..]| ensures !IsNewline(s[1..][i]) {
          assert s[1..][i] == s[i + 1];
        }
      }
      NewlineFreeHasNoSeparators(s[1..]);
      assert [s[0]] + s[1..] == s;
    }
  }

  // ---------------------------------------------------------------------
  // Dropping empty components
  // ---------------------------------------------------------------------

  /** The elements of `parts` that are not empty, in their original order. */
  function NonEmpty(parts: seq<string>): (r: seq<string>)
    ensures |r| <= |parts|
    ensures forall i :: 0 <= i < |r| ==> r[i] != ""
  {
    if |parts| == 0 then []
    else if parts[0] == "" then NonEmpty(parts[1..])
    else [parts[0]] + NonEmpty(parts[1..])
  }

  /** Dropping empties distributes over concatenation, so order is kept. */
  lemma {:induction false} NonEmptyAppend(a: seq<string>, b: seq<string>)
    ensures NonEmpty(a + b) == NonEmpty(a) + NonEmpty(b)
  {
    if |a| > 0 {
      assert (a + b)[1..] == a[1..] + b;
      NonEmptyAppend(a[1..], b);
    } else {
      assert a + b == b;
    }
  }

  /** A string survives the filter exactly when it is in the input and not empty. */
  lemma {:induction false} NonEmptyMembership(parts: seq<string>, x: string)
    ensures x in NonEmpty(parts) <==> x in parts && x != ""
  {
    if |parts| > 0 {
      NonEmptyMembership(parts[1..], x);
      assert parts == [parts[0]] + parts[1..];
    }
  }

  /** Filtering a second time changes nothing. */
  lemma {:induction false} NonEmptyIdempotent(parts: seq<string>)
    ensures NonEmpty(NonEmpty(parts)) == NonEmpty(parts)
  {
    if |parts| > 0 {
      NonEmptyIdempotent(parts[1..]);
      if parts[0] != "" {
        assert ([parts[0]] + NonEmpty(parts[1..]))[1..] == NonEmpty(parts[1..]);
      }
    }
  }

  /** The non-empty lines of a file content. */
  function Lines(content: string): seq<string> {
    NonEmpty(Components(content))
  }

  // ---------------------------------------------------------------------
  // The loaded list
  // ---------------------------------------------------------------------

  /**
   * What loadTexts leaves in `texts`, given what `texts` held before and
   * the content found (if any): the lines of the content, else the old
   * list; the placeholder if that is empty.
   */
  function Loaded(prior: seq<string>, content: Option<string>): (r: seq<string>)
    ensures |r| >= 1
    ensures content.Some? && Lines(content.value) != [] ==> r == Lines(content.value)
    ensures content.Some? && Lines(content.value) == [] ==> r == [Placeholder]
    ensures content.None? && prior != [] ==> r == prior
    ensures content.None? && prior == [] ==> r == [Placeholder]
  {
    var t := if content.Some? then Lines(content.value) else prior;
    if t == [] then [Placeholder] else t
  }

  /** The list the app starts with: `texts` is empty before the load. */
  function TextsFrom(results: seq<Option<string>>): seq<string> {
    Loaded([], FirstReadable(results))
  }

  /**
   * The loaded list is never empty and holds no empty string; it is the
   * placeholder alone when nothing was readable or every line was empty,
   * and otherwise the non-empty lines of the first readable content.
   */
  lemma LoadedShape(results: seq<Option<string>>)
    ensures |TextsFrom(results)| >= 1
    ensures forall i :: 0 <= i < |TextsFrom(results)| ==> TextsFrom(results)[i] != ""
    ensures (forall j :: 0 <= j < |results| ==> results[j].None?) ==> TextsFrom(results) == [Placeholder]
    ensures FirstReadable(results).Some? && Lines(FirstReadable(results).value) == [] ==>
              TextsFrom(results) == [Placeholder]
    ensures FirstReadable(results).Some? && Lines(FirstReadable(results).value) != [] ==>
              TextsFrom(results) == Lines(FirstReadable(results).value)
  {
  }

  /** Every loaded line is a newline-free, non-empty component of the content. */
  lemma LinesAreComponents(content: string, x: string)
    ensures x in Lines(content) <==> x in Components(content) && x != ""
    ensures x in Lines(content) ==> NewlineFree(x)
  {
    NonEmptyMembership(Components(content), x);
  }

  /** A file whose one blank line sits between two lines loads as those two lines. */
  lemma BlankLineDropped()
    ensures Lines("Hello\n\nWorld") == ["Hello", "World"]
  {
    var s := "Hello\n\nWorld";
    ComponentsUnique(s, ["Hello", "", "World"], "\n\n");
  }

  /** A carriage-return line feed ending yields only an empty component in between. */
  lemma CrLfDropped()
    ensures Components("a\r\nb") == ["a", "", "b"]
    ensures Lines("a\r\nb") == ["a", "b"]
  {
    ComponentsUnique("a\r\nb", ["a", "", "b"], "\r\n");
  }
}
