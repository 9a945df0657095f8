/** The bridge from a generated reply to the external renderer
    (`run_manim_code` in manim_exec.py): extract the fenced code block,
    sanitise and truncate the visualisation name, run the renderer on a
    temporary script, classify its exit status, and remove the script. */
module ManimExec {
  import opened Wrappers
  import opened Strings

  /** Opening and closing fences of the pattern ```` ```python\n(.*?)\n``` ````. */
  const Opener: string := "```python\n"
  const Closer: string := "\n```"
  const NoCodeMessage: string := "No Python code found"
  /** The scene the render command names. */
  const SceneName: string := "Scene"
  /** The renderer receives at most this many characters of the sanitised name. */
  const MaxOutputName: nat := 20

  // ---------------------------------------------------------------------------
  // Code extraction

  /** The first index at or after `from` where `pat` occurs in `s`. */
  function FindFrom(s: string, pat: string, from: nat): (r: Option<nat>)
    decreases |s| - from
    ensures r.Some? ==> from <= r.value && OccursAt(s, pat, r.value)
    ensures r.Some? ==> forall k: nat :: from <= k < r.value ==> !OccursAt(s, pat, k)
    ensures r.None? ==> forall k: nat :: from <= k ==> !OccursAt(s, pat, k)
  {
    if from + |pat| > |s| then None
    else if OccursAt(s, pat, from) then Some(from)
    else FindFrom(s, pat, from + 1)
  }

  /** A candidate match of the pattern (with DOTALL): an opening fence at `i`
      and a closing fence at `j` that starts after the opening one ends. */
  ghost predicate FenceAt(text: string, i: nat, j: nat)
  {
    OccursAt(text, Opener, i) && i + |Opener| <= j && OccursAt(text, Closer, j)
  }

  /** The match `re.search` reports: the leftmost start, and for that start
      the shortest body (the group is non-greedy). */
  ghost predicate FirstFence(text: string, i: nat, j: nat)
  {
    FenceAt(text, i, j) &&
    forall i': nat, j': nat :: FenceAt(text, i', j') ==> i < i' || (i == i' && j <= j')
  }

  /** `match.group(1)`, or None when the search fails: the search fails
      exactly when no opening fence is followed somewhere later by a closing
      fence, and otherwise the code is the body of the leftmost, shortest
      match. */
  function ExtractCode(text: string): (code: Option<string>)
    ensures code.None? <==> forall i: nat, j: nat :: !FenceAt(text, i, j)
    ensures code.Some? ==> exists i: nat, j: nat :: FirstFence(text, i, j) && code.value == text[i + |Opener|..j]
  {
    match FindFrom(text, Opener, 0)
    case None => None
    case Some(i) =>
      match FindFrom(text, Closer, i + |Opener|)
      case None =>
        NoFenceWithoutCloser(text, i);
        None
      case Some(j) =>
        FirstFenceFound(text, i, j);
        Some(text[i + |Opener| .. j])
  }

  /** When no closing fence follows the first opening fence, no fence
      follows any opening fence. */
  lemma NoFenceWithoutCloser(text: string, i0: nat)
    requires FindFrom(text, Opener, 0) == Some(i0) && FindFrom(text, Closer, i0 + |Opener|).None?
    ensures forall i: nat, j: nat :: !FenceAt(text, i, j)
  {
    forall i: nat, j: nat ensures !FenceAt(text, i, j) {
      if OccursAt(text, Opener, i) {
        assert i0 <= i;
      }
    }
  }

  /** The first opening fence and the first closing fence after it are the
      leftmost, shortest match. */
  lemma FirstFenceFound(text: string, i0: nat, j0: nat)
    requires FindFrom(text, Opener, 0) == Some(i0) && FindFrom(text, Closer, i0 + |Opener|) == Some(j0)
    ensures FirstFence(text, i0, j0)
  {
    forall i: nat, j: nat | FenceAt(text, i, j)
      ensures i0 < i || (i0 == i && j0 <= j)
    {
      assert i0 <= i;
    }
  }

  /** When the text holds a fence, the extracted code is the body of the
      leftmost, shortest one: the text strictly between the first opening
      fence and the first closing fence after it. */
  lemma ExtractIsFirstShortestFence(text: string, i: nat, j: nat)
    requires FirstFence(text, i, j)
    ensures ExtractCode(text) == Some(text[i + |Opener| .. j])
  {
    assert FenceAt(text, i, j);
    var code := ExtractCode(text);
    assert code.Some?;
    var i0: nat, j0: nat :| FirstFence(text, i0, j0) && code.value == text[i0 + |Opener|..j0];
    assert FenceAt(text, i0, j0);
    assert i0 == i && j0 == j;
  }

  /** A reply that opens with a fenced block whose body has no newline
      yields that body, whatever follows the block. */
  lemma ExtractLeadingBlock(code: string, post: string)
    requires '\n' !in code
    ensures ExtractCode(Opener + code + Closer + post) == Some(code)
  {
    var t := Opener + code + Closer + post;
    assert t[..|Opener|] == Opener;
    assert OccursAt(t, Opener, 0);
    var e := |Opener| + |code|;
    assert t[e..e + |Closer|] == Closer;
    assert OccursAt(t, Closer, e);
    forall k: nat | |Opener| <= k < e
      ensures !OccursAt(t, Closer, k)
    {
      assert t[k] == code[k - |Opener|];
      NotOccursAt(t, Closer, k, 0);
    }
    assert FindFrom(t, Closer, |Opener|) == Some(e);
    assert t[|Opener|..e] == code;
  }

  /** The sample reply with a single fenced block yields the block's body. */
  lemma ExtractSampleBlock()
    ensures ExtractCode("```python\nprint(1)\n```") == Some("print(1)")
  {
    assert "```python\nprint(1)\n```" == Opener + "print(1)" + Closer + "";
    ExtractLeadingBlock("print(1)", "");
  }

  /** The output-format block the prompt shows the model carries an info
      string after `python`, so it is never matched itself: the opening
      fence needs its newline at once. */
  lemma ExtractRejectsPromptFormat(resolution: string)
    requires '`' !in resolution
    ensures ExtractCode("```python " + resolution + "\n{PYTHON_CODE}" + Closer + "\n").None?
  {
    var u := "python " + resolution + "\n{PYTHON_CODE}";
    var t := "```" + u + Closer + "\n";
    assert "```python " + resolution + "\n{PYTHON_CODE}" + Closer + "\n" == t;
    assert '`' !in u;
    forall k: nat ensures !OccursAt(t, Opener, k) {
      if k + |Opener| <= |t| {
        if k == 0 {
          NotOccursAt(t, Opener, 0, 9);
        } else if k < 3 {
          NotOccursAt(t, Opener, k, 3);
        } else {
          assert t[k] == u[k - 3];
          NotOccursAt(t, Opener, k, 0);
        }
      }
    }
  }

  // ---------------------------------------------------------------------------
  // Name sanitising and truncation

  /** Python's `\w`, restricted to ASCII. */
  predicate IsWordChar(c: char)
  {
    'a' <= c <= 'z' || 'A' <= c <= 'Z' || '0' <= c <= '9' || c == '_'
  }

  predicate IsAlnum(c: char)
  {
    IsWordChar(c) && c != '_'
  }

  predicate IsSeparator(c: char)
  {
    !IsWordChar(c)
  }

  predicate IsUnderscore(c: char)
  {
    c == '_'
  }

  /** `re.sub(r'\W+', '_', s)`: each maximal run of non-word characters
      becomes a single `_`; word characters are kept. */
  function SubNonWord(s: string): (r: string)
    decreases |s|
    ensures |r| <= |s|
    ensures forall k :: 0 <= k < |r| ==> IsWordChar(r[k])
  {
    if s == [] then []
    else if IsWordChar(s[0]) then [s[0]] + SubNonWord(s[1..])
    else "_" + SubNonWord(s[1..][LeadingCount(s[1..], IsSeparator)..])
  }

  /** A name the renderer can take as it is: word characters only, and no
      `_` at either end. */
  predicate IsSafeName(s: string)
  {
    (forall k :: 0 <= k < |s| ==> IsWordChar(s[k])) &&
    (s == [] || (s[0] != '_' && s[|s| - 1] != '_'))
  }

  /** `re.sub(r'\W+', '_', name).strip('_')` */
  function Sanitize(name: string): (r: string)
    ensures IsSafeName(r)
    ensures |r| <= |SubNonWord(name)| <= |name|
  {
    Strip(SubNonWord(name), IsUnderscore)
  }

  /** The `-o` argument of the render command: `name[:20]` of the sanitised name. */
  function OutputName(name: string): (r: string)
    ensures |r| <= MaxOutputName
    ensures |r| == MaxOutputName || r == Sanitize(name)
    ensures StartsWith(Sanitize(name), r)
    ensures forall k :: 0 <= k < |r| ==> IsWordChar(r[k])
  {
    Take(Sanitize(name), MaxOutputName)
  }

  lemma {:induction false} SubNonWordKeepsWords(s: string)
    requires forall k :: 0 <= k < |s| ==> IsWordChar(s[k])
    ensures SubNonWord(s) == s
  {
    if s != [] {
      SubNonWordKeepsWords(s[1..]);
    }
  }

  /** A name is left unchanged by sanitising exactly when it is already safe. */
  lemma SanitizeFixedPoints(name: string)
    ensures Sanitize(name) == name <==> IsSafeName(name)
  {
    if IsSafeName(name) {
      SubNonWordKeepsWords(name);
    }
  }

  /** Sanitising twice is sanitising once. */
  lemma SanitizeIdempotent(name: string)
    ensures Sanitize(Sanitize(name)) == Sanitize(name)
  {
    SanitizeFixedPoints(Sanitize(name));
  }

  /** The letters and digits of a string, in order. */
  function Alnums(s: string): (r: string)
    ensures |r| <= |s|
  {
    if s == [] then []
    else (if IsAlnum(s[0]) then [s[0]] else []) + Alnums(s[1..])
  }

  lemma {:induction false} AlnumsAppend(a: string, b: string)
    ensures Alnums(a + b) == Alnums(a) + Alnums(b)
  {
    if a == [] {
      assert a + b == b;
    } else {
      assert (a + b)[0] == a[0];
      assert (a + b)[1..] == a[1..] + b;
      AlnumsAppend(a[1..], b);
      var h := if IsAlnum(a[0]) then [a[0]] else [];
      assert Alnums(a + b) == h + Alnums(a[1..] + b);
      assert h + (Alnums(a[1..]) + Alnums(b)) == (h + Alnums(a[1..])) + Alnums(b);
    }
  }

  lemma {:induction false} AlnumsNone(s: string)
    requires forall k :: 0 <= k < |s| ==> !IsAlnum(s[k])
    ensures Alnums(s) == []
  {
    if s != [] {
      AlnumsNone(s[1..]);
    }
  }

  lemma {:induction false} SubNonWordKeepsAlnums(s: string)
    decreases |s|
    ensures Alnums(SubNonWord(s)) == Alnums(s)
  {
    if s == [] {
    } else if IsWordChar(s[0]) {
      SubNonWordKeepsAlnums(s[1..]);
      assert ([s[0]] + SubNonWord(s[1..]))[1..] == SubNonWord(s[1..]);
    } else {
      var t := s[1..];
      var n := LeadingCount(t, IsSeparator);
      SubNonWordKeepsAlnums(t[n..]);
      assert ("_" + SubNonWord(t[n..]))[1..] == SubNonWord(t[n..]);
      assert t == t[..n] + t[n..];
      AlnumsNone(t[..n]);
      AlnumsAppend(t[..n], t[n..]);
    }
  }

  /** Sanitising keeps every letter and digit of the name, in order; it only
      turns separators into `_` and trims `_` at the ends. */
  lemma SanitizeKeepsLettersAndDigits(name: string)
    ensures Alnums(Sanitize(name)) == Alnums(name)
  {
    SubNonWordKeepsAlnums(name);
    AlnumsStripUnderscores(SubNonWord(name));
  }

  lemma AlnumsStripUnderscores(s: string)
    ensures Alnums(Strip(s, IsUnderscore)) == Alnums(s)
  {
    var i, j :| (0 <= i <= j <= |s| && Strip(s, IsUnderscore) == s[i..j]
      && (forall k :: 0 <= k < i ==> IsUnderscore(s[k])) && (forall k :: j <= k < |s| ==> IsUnderscore(s[k])));
    assert forall k :: 0 <= k < i ==> IsUnderscore(s[k]) && !IsAlnum(s[k]);
    assert forall k :: j <= k < |s| ==> IsUnderscore(s[k]) && !IsAlnum(s[k]);
    AlnumsOfCore(s, i, j);
  }

  /** Only the letters and digits of `s[i..j]` count when none lie outside it. */
  lemma AlnumsOfCore(s: string, i: nat, j: nat)
    requires i <= j <= |s|
    requires forall k :: 0 <= k < i ==> !IsAlnum(s[k])
    requires forall k :: j <= k < |s| ==> !IsAlnum(s[k])
    ensures Alnums(s) == Alnums(s[i..j])
  {
    AlnumsDropBack(s, j);
    AlnumsDropFront(s[..j], i);
    assert s[..j][i..] == s[i..j];
  }

  lemma {:induction false} AlnumsDropFront(s: string, i: nat)
    requires i <= |s|
    requires forall k :: 0 <= k < i ==> !IsAlnum(s[k])
    ensures Alnums(s) == Alnums(s[i..])
  {
    if i > 0 {
      AlnumsDropFront(s[1..], i - 1);
      assert s[1..][i - 1..] == s[i..];
    }
  }

  lemma {:induction false} AlnumsDropBack(s: string, j: nat)
    requires j <= |s|
    requires forall k :: j <= k < |s| ==> !IsAlnum(s[k])
    ensures Alnums(s) == Alnums(s[..j])
  {
    if j == 0 {
      AlnumsNone(s);
    } else {
      AlnumsDropBack(s[1..], j - 1);
      assert s[..j][0] == s[0];
      assert s[..j][1..] == s[1..][..j - 1];
    }
  }

  predicate NoDoubleUnderscore(s: string)
  {
    forall k :: 0 < k < |s| ==> s[k - 1] != '_' || s[k] != '_'
  }

  lemma {:induction false} SubNonWordNoDouble(s: string)
    requires forall k :: 0 <= k < |s| ==> s[k] != '_'
    decreases |s|
    ensures NoDoubleUnderscore(SubNonWord(s))
  {
    if s == [] {
    } else if IsWordChar(s[0]) {
      var rest := SubNonWord(s[1..]);
      SubNonWordNoDouble(s[1..]);
      var r := [s[0]] + rest;
      assert forall k :: 0 < k < |r| ==> r[k] == rest[k - 1];
    } else {
      var t := s[1..];
      var n := LeadingCount(t, IsSeparator);
      var tail := t[n..];
      assert forall k :: 0 <= k < |tail| ==> tail[k] == s[1 + n + k];
      SubNonWordNoDouble(tail);
      var rest := SubNonWord(tail);
      assert rest != [] ==> rest[0] == tail[0];
      var r := "_" + rest;
      assert forall k :: 0 < k < |r| ==> r[k] == rest[k - 1];
    }
  }

  /** A name without `_` of its own sanitises to one in which no two `_` are
      adjacent (a name that has `_` need not: see SanitizeKeepsDoubleUnderscore). */
  lemma SanitizeNoDoubleUnderscore(name: string)
    requires forall k :: 0 <= k < |name| ==> name[k] != '_'
    ensures NoDoubleUnderscore(Sanitize(name))
  {
    var sub := SubNonWord(name);
    SubNonWordNoDouble(name);
    var a := LeadingCount(sub, IsUnderscore);
    var lead := sub[a..];
    var r := lead[..|lead| - TrailingCount(lead, IsUnderscore)];
    assert forall k :: 0 <= k < |r| ==> r[k] == sub[a + k];
  }

  /** Word characters at the front pass through `re.sub` unchanged. */
  lemma {:induction false} SubNonWordWordPrefix(w: string, s: string)
    requires forall k :: 0 <= k < |w| ==> IsWordChar(w[k])
    ensures SubNonWord(w + s) == w + SubNonWord(s)
  {
    if w == [] {
      assert w + s == s;
    } else {
      assert (w + s)[0] == w[0];
      assert (w + s)[1..] == w[1..] + s;
      SubNonWordWordPrefix(w[1..], s);
    }
  }

  /** A run of separators at the front becomes one `_`. */
  lemma SubNonWordRunPrefix(run: string, s: string)
    requires run != [] && forall k :: 0 <= k < |run| ==> !IsWordChar(run[k])
    requires s == [] || IsWordChar(s[0])
    ensures SubNonWord(run + s) == "_" + SubNonWord(s)
  {
    var t := (run + s)[1..];
    assert t == run[1..] + s;
    var n0 := |run| - 1;
    var n := LeadingCount(t, IsSeparator);
    assert forall k :: 0 <= k < n0 ==> t[k] == run[k + 1];
    assert n0 < |t| ==> t[n0] == s[0];
    assert forall k :: 0 <= k < n0 ==> !IsWordChar(t[k]);
    assert n0 == |t| || IsWordChar(t[n0]);
    assert n == n0;
    assert t[n0..] == s;
  }

  /** A `_` of the name next to a run of separators survives next to the one
      the run becomes. */
  lemma SanitizeKeepsDoubleUnderscore()
    ensures Sanitize("a_!b") == "a__b"
  {
    assert "a_!b" == "a_" + ("!" + "b");
    SubNonWordWordPrefix("a_", "!" + "b");
    SubNonWordRunPrefix("!", "b");
    SubNonWordKeepsWords("b");
    assert SubNonWord("a_!b") == "a__b";
  }

  /** The words with `sep` between each two. */
  function Joined(words: seq<string>, sep: string): string
    decreases |words|
  {
    if words == [] then []
    else if |words| == 1 then words[0]
    else words[0] + (sep + Joined(words[1..], sep))
  }

  /** Non-empty words of letters and digits. */
  predicate AreWords(words: seq<string>)
  {
    forall i :: 0 <= i < |words| ==> words[i] != [] && forall k :: 0 <= k < |words[i]| ==> IsAlnum(words[i][k])
  }

  lemma {:induction false} JoinedEnds(words: seq<string>, sep: string)
    requires words != [] && AreWords(words)
    ensures var j := Joined(words, sep);
      j != [] && j[0] == words[0][0] && j[|j| - 1] == words[|words| - 1][|words[|words| - 1]| - 1]
    decreases |words|
  {
    if |words| > 1 {
      var rest := words[1..];
      assert rest[|rest| - 1] == words[|words| - 1];
      JoinedEnds(rest, sep);
      var j := Joined(words, sep);
      var jr := Joined(rest, sep);
      assert j == words[0] + (sep + jr);
      assert j[|j| - 1] == jr[|jr| - 1];
    }
  }

  /** Words separated by single spaces and followed by punctuation become the
      words joined by `_`, with one `_` for the punctuation. */
  lemma {:induction false} SubNonWordSpacedWords(words: seq<string>, punct: string)
    requires words != [] && AreWords(words)
    requires punct != [] && forall k :: 0 <= k < |punct| ==> !IsWordChar(punct[k])
    ensures SubNonWord(Joined(words, " ") + punct) == Joined(words, "_") + "_"
    decreases |words|
  {
    var w := words[0];
    assert forall k :: 0 <= k < |w| ==> IsWordChar(w[k]);
    if |words| == 1 {
      SubNonWordWordThenTrailingRun(w, punct);
    } else {
      var rest := words[1..];
      assert forall i :: 0 <= i < |rest| ==> rest[i] == words[i + 1];
      SubNonWordSpacedWords(rest, punct);
      JoinedEnds(rest, " ");
      var t, s := Joined(rest, " ") + punct, Joined(rest, "_") + "_";
      assert t[0] == rest[0][0];
      SubNonWordWordThenSpace(w, t, s);
      assert Joined(words, " ") + punct == w + (" " + t);
      assert Joined(words, "_") + "_" == w + ("_" + s);
    }
  }

  /** Words separated by single spaces and followed by punctuation, as in
      "My Cool Viz!!", sanitise to the words joined by `_`. */
  lemma SanitizeSpacedWords(words: seq<string>, punct: string)
    requires words != [] && AreWords(words)
    requires punct != [] && forall k :: 0 <= k < |punct| ==> !IsWordChar(punct[k])
    ensures Sanitize(Joined(words, " ") + punct) == Joined(words, "_")
  {
    SubNonWordSpacedWords(words, punct);
    JoinedEnds(words, "_");
    var r := Joined(words, "_");
    var sub := r + "_";
    assert sub[0] == r[0];
    assert LeadingCount(sub, IsUnderscore) == 0;
    assert sub[0..] == sub;
    assert sub[|sub| - 1] == '_' && sub[|sub| - 2] == r[|r| - 1];
    assert TrailingCount(sub, IsUnderscore) == 1;
    assert sub[..|sub| - 1] == r;
  }

  /** A word followed by a trailing run of separators. */
  lemma SubNonWordWordThenTrailingRun(w: string, run: string)
    requires forall k :: 0 <= k < |w| ==> IsWordChar(w[k])
    requires run != [] && forall k :: 0 <= k < |run| ==> !IsWordChar(run[k])
    ensures SubNonWord(w + run) == w + "_"
  {
    SubNonWordWordPrefix(w, run);
    var t := run[1..];
    assert LeadingCount(t, IsSeparator) == |t|;
    assert t[|t|..] == [];
  }

  /** One word, one space, then text whose substitution is already known. */
  lemma SubNonWordWordThenSpace(w: string, t: string, s: string)
    requires forall k :: 0 <= k < |w| ==> IsWordChar(w[k])
    requires t != [] && IsWordChar(t[0]) && SubNonWord(t) == s
    ensures SubNonWord(w + (" " + t)) == w + ("_" + s)
  {
    SubNonWordWordThenRun(w, " ", t);
  }

  lemma SubNonWordWordThenRun(w: string, run: string, t: string)
    requires forall k :: 0 <= k < |w| ==> IsWordChar(w[k])
    requires run != [] && forall k :: 0 <= k < |run| ==> !IsWordChar(run[k])
    requires t == [] || IsWordChar(t[0])
    ensures SubNonWord(w + (run + t)) == w + ("_" + SubNonWord(t))
  {
    SubNonWordRunPrefix(run, t);
    SubNonWordWordPrefix(w, run + t);
  }

  // ---------------------------------------------------------------------------
  // Running the renderer

  /** What the render subprocess did: exited with a status and captured
      output, or raised something other than a non-zero exit. */
  datatype RenderOutcome = Exited(status: int, stdout: string, stderr: string) | Crashed(message: string)

  /** What `run_manim_code` did: returned `(success, message)`, or raised. */
  datatype RunResult = Returned(success: bool, message: string) | Raised(message: string)

  /** One invocation of the renderer: the script path, the code the script
      held when the renderer ran, the scene name and the output name. */
  datatype RenderCommand = RenderCommand(script: string, code: string, scene: string, outputName: string)

  /** `(success, message)` for a renderer that exited with `exitStatus`;
      `check=True` turns a non-zero status into the error branch, whose
      message is `Error: `, the standard output, a newline and the standard
      error, so that both streams survive in it. */
  function Classify(exitStatus: int, stdout: string, stderr: string): (r: (bool, string))
    ensures r.0 <==> exitStatus == 0
    ensures r.0 ==> r.1 == stdout + stderr
    ensures !r.0 ==> |r.1| == 8 + |stdout| + |stderr| && StartsWith(r.1, "Error: ")
    ensures !r.0 ==> r.1[7..7 + |stdout|] == stdout && r.1[7 + |stdout|] == '\n' && r.1[8 + |stdout|..] == stderr
  {
    if exitStatus == 0 then (true, stdout + stderr)
    else (false, "Error: " + stdout + "\n" + stderr)
  }

  /** The result of running the renderer: the classified exit, or the
      exception it raised. */
  function RenderResult(render: RenderOutcome): (r: RunResult)
    ensures r.Returned? <==> render.Exited?
    ensures r.Returned? ==> (r.success, r.message) == Classify(render.status, render.stdout, render.stderr)
    ensures render.Crashed? ==> r == Raised(render.message)
  {
    match render
    case Exited(status, out, err) =>
      var (ok, message) := Classify(status, out, err);
      Returned(ok, message)
    case Crashed(message) => Raised(message)
  }

  /** The result of `run_manim_code` on a reply and a renderer outcome. */
  function RunResultOf(text: string, render: RenderOutcome): (r: RunResult)
    ensures ExtractCode(text).None? ==> r == Returned(false, NoCodeMessage)
    ensures r.Returned? && r.success <==>
              ExtractCode(text).Some? && render.Exited? && render.status == 0
    ensures r.Raised? <==> ExtractCode(text).Some? && render.Crashed?
    ensures ExtractCode(text).Some? && render.Crashed? ==> r == Raised(render.message)
  {
    if ExtractCode(text).None? then Returned(false, NoCodeMessage)
    else RenderResult(render)
  }

  /** A renderer that exits with status 0 reports its standard output followed
      by its standard error; any other status reports both, prefixed with
      `Error: ` and separated by a newline. */
  lemma RunMessages(text: string, render: RenderOutcome)
    requires ExtractCode(text).Some? && render.Exited?
    ensures render.status == 0 ==>
              RunResultOf(text, render) == Returned(true, render.stdout + render.stderr)
    ensures render.status != 0 ==>
              RunResultOf(text, render) == Returned(false, "Error: " + render.stdout + "\n" + render.stderr)
  {
  }

  /** Every `(False, message)` the bridge returns carries a non-empty message. */
  lemma RunFailureMessageNonEmpty(text: string, render: RenderOutcome)
    ensures RunResultOf(text, render).Returned? && !RunResultOf(text, render).success ==>
              |RunResultOf(text, render).message| > 0
  {
  }

  /** The machine state `run_manim_code` touches: files by path with their
      contents, and the renderer invocations made so far. */
  class Host {
    var files: map<string, string>
    var renders: seq<RenderCommand>

    constructor (files: map<string, string>)
      ensures this.files == files && renders == []
    {
      this.files := files;
      renders := [];
    }
  }

  /** `run_manim_code(text, name)`. `tempPath` is the fresh name the
      temporary-file facility picks; `render` is what the renderer does.
      No script is written and nothing is run when the reply holds no code;
      otherwise the renderer runs once on a script holding exactly the
      extracted code, and the script is gone again on every way out. */
  method RunManimCode(host: Host, text: string, name: string, tempPath: string, render: RenderOutcome)
    returns (r: RunResult)
    requires tempPath !in host.files
    modifies host
    ensures r == RunResultOf(text, render)
    ensures host.files == old(host.files)
    ensures ExtractCode(text).None? ==> host.renders == old(host.renders)
    ensures ExtractCode(text).Some? ==>
              host.renders == old(host.renders) +
                [RenderCommand(tempPath, ExtractCode(text).value, SceneName, OutputName(name))]
  {
    var found := ExtractCode(text);
    if found.None? {
      return Returned(false, NoCodeMessage);
    }
    var code := found.value;
    var safeName := Sanitize(name);
    var outputName := Take(safeName, MaxOutputName);
    assert outputName == OutputName(name);
    WriteScript(host, tempPath, code);
    r := RunRenderer(host, tempPath, outputName, render);
    assert r == RunResultOf(text, render);
    RemoveScript(host, tempPath);
    WriteThenRemove(old(host.files), tempPath, code);
  }

  /** Writing a fresh path and removing it again restores the file map. */
  lemma WriteThenRemove(files: map<string, string>, path: string, code: string)
    requires path !in files
    ensures files[path := code] - {path} == files
  {
    var after := files[path := code] - {path};
    assert after.Keys == files.Keys;
    assert forall p :: p in files ==> after[p] == files[p];
  }

  /** The `with` block: the script file now holds the code. */
  method WriteScript(host: Host, path: string, code: string)
    modifies host
    ensures host.files == old(host.files)[path := code] && host.renders == old(host.renders)
  {
    host.files := host.files[path := code];
  }

  /** The `try` block: runs the renderer once on the script, then classifies
      its exit. */
  method RunRenderer(host: Host, script: string, outputName: string, render: RenderOutcome) returns (r: RunResult)
    requires script in host.files
    modifies host
    ensures r == RenderResult(render)
    ensures host.files == old(host.files)
    ensures host.renders == old(host.renders) + [RenderCommand(script, host.files[script], SceneName, outputName)]
  {
    host.renders := host.renders + [RenderCommand(script, host.files[script], SceneName, outputName)];
    match render {
      case Exited(status, out, err) =>
        var (ok, message) := Classify(status, out, err);
        r := Returned(ok, message);
      case Crashed(message) =>
        r := Raised(message);
    }
  }

  /** The `finally` block: removes the script if it is still there. */
  method RemoveScript(host: Host, path: string)
    modifies host
    ensures host.files == old(host.files) - {path} && host.renders == old(host.renders)
  {
    if path in host.files {
      host.files := host.files - {path};
    }
  }
}
