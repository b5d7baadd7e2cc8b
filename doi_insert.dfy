/** `insert_doi(file_str, key, doi)`: Python's `str.replace`, which rewrites every
    non-overlapping occurrence of the key line `key + ",\n"`, found left to
    right, into the key line followed by a DOI line. */
module DoiInsert {

  /** `s.replace(pat, rep)` for a non-empty pattern: at each position either the
      pattern starts there and is replaced (scanning resumes after it, so the
      replacement text is never searched again), or one character is copied. */
  function ReplaceAll(s: string, pat: string, rep: string): string
    requires pat != []
    decreases |s|
  {
    if s == [] then []
    else if pat <= s then rep + ReplaceAll(s[|pat|..], pat, rep)
    else [s[0]] + ReplaceAll(s[1..], pat, rep)
  }

  /** The number of occurrences `ReplaceAll` rewrites (Python's `s.count(pat)`). */
  function Count(s: string, pat: string): nat
    requires pat != []
    decreases |s|
  {
    if s == [] then 0
    else if pat <= s then 1 + Count(s[|pat|..], pat)
    else Count(s[1..], pat)
  }

  /** `pat` occurs somewhere in `s`. */
  ghost predicate Occurs(pat: string, s: string)
  {
    exists i :: 0 <= i <= |s| && pat <= s[i..]
  }

  function KeyLine(key: string): string
  {
    key + ",\n"
  }

  function DoiLine(doi: string): string
  {
    "  doi = {" + doi + "},\n"
  }

  function InsertDoi(fileStr: string, key: string, doi: string): string
  {
    ReplaceAll(fileStr, KeyLine(key), KeyLine(key) + DoiLine(doi))
  }

  /** Taking the DOI lines out again: replace every key line followed by a DOI
      line by the key line alone. */
  function RemoveDoi(fileStr: string, key: string, doi: string): string
  {
    ReplaceAll(fileStr, KeyLine(key) + DoiLine(doi), KeyLine(key))
  }

  /** The scan counts an occurrence exactly when the pattern occurs. */
  lemma {:induction false} CountOccurs(s: string, pat: string)
    requires pat != []
    ensures Count(s, pat) > 0 <==> Occurs(pat, s)
    decreases |s|
  {
    if s == [] {
      assert forall i | 0 <= i <= |s| :: s[i..] == [];
    } else if pat <= s {
      assert s[0..] == s;
    } else {
      CountOccurs(s[1..], pat);
      if Occurs(pat, s) {
        var i :| 0 <= i <= |s| && pat <= s[i..];
        assert i != 0;
        assert s[1..][i - 1..] == s[i..];
      }
      if Occurs(pat, s[1..]) {
        var i :| 0 <= i <= |s[1..]| && pat <= s[1..][i..];
        assert s[1..][i..] == s[i + 1..];
      }
    }
  }

  lemma {:induction false} NoCountUnchanged(s: string, pat: string, rep: string)
    requires pat != [] && Count(s, pat) == 0
    ensures ReplaceAll(s, pat, rep) == s
    decreases |s|
  {
    if s != [] {
      NoCountUnchanged(s[1..], pat, rep);
    }
  }

  /** Where the key line does not occur, the text is returned unchanged. */
  lemma InsertWithoutKeyLine(fileStr: string, key: string, doi: string)
    requires !Occurs(KeyLine(key), fileStr)
    ensures InsertDoi(fileStr, key, doi) == fileStr
  {
    CountOccurs(fileStr, KeyLine(key));
    NoCountUnchanged(fileStr, KeyLine(key), KeyLine(key) + DoiLine(doi));
  }

  lemma {:induction false} ReplaceLength(s: string, pat: string, rep: string)
    requires pat != []
    ensures |ReplaceAll(s, pat, rep)| == |s| + Count(s, pat) * (|rep| - |pat|)
    decreases |s|
  {
    if s == [] {
    } else if pat <= s {
      ReplaceLength(s[|pat|..], pat, rep);
      MulSucc(Count(s[|pat|..], pat), |rep| - |pat|);
    } else {
      ReplaceLength(s[1..], pat, rep);
    }
  }

  /** Each rewritten key line adds exactly one DOI line. */
  lemma InsertLength(fileStr: string, key: string, doi: string)
    ensures |InsertDoi(fileStr, key, doi)| == |fileStr| + Count(fileStr, KeyLine(key)) * |DoiLine(doi)|
  {
    ReplaceLength(fileStr, KeyLine(key), KeyLine(key) + DoiLine(doi));
  }

  /** When the replacement starts with the pattern, replacing creates no new
      match at the front: any prefix of the result no longer than the pattern is
      a prefix of the input. */
  lemma {:induction false} NoNewPrefix(s: string, pat: string, rep: string, q: string)
    requires pat != [] && pat <= rep
    requires |q| <= |pat| && q <= ReplaceAll(s, pat, rep)
    ensures q <= s
    decreases |s|
  {
    if s == [] {
    } else if pat <= s {
      assert q == rep[..|q|] == pat[..|q|];
    } else if q != [] {
      NoNewPrefix(s[1..], pat, rep, q[1..]);
      assert q == [q[0]] + q[1..];
    }
  }

  /** Removing the inserted DOI lines gives back the input. */
  lemma {:induction false} RemoveAfterInsert(fileStr: string, key: string, doi: string)
    ensures RemoveDoi(InsertDoi(fileStr, key, doi), key, doi) == fileStr
    decreases |fileStr|
  {
    var pat, line := KeyLine(key), DoiLine(doi);
    var s := fileStr;
    if s == [] {
    } else if pat <= s {
      var rest := ReplaceAll(s[|pat|..], pat, pat + line);
      assert InsertDoi(s, key, doi) == (pat + line) + rest;
      RemoveAfterInsert(s[|pat|..], key, doi);
      assert s == pat + s[|pat|..];
    } else {
      var t := InsertDoi(s, key, doi);
      assert t == [s[0]] + InsertDoi(s[1..], key, doi);
      if pat + line <= t {
        assert pat <= t;
        NoNewPrefix(s, pat, pat + line, pat);
        assert false;
      }
      assert t[1..] == InsertDoi(s[1..], key, doi);
      RemoveAfterInsert(s[1..], key, doi);
    }
  }

  lemma {:induction false} ReplaceKeepsOccurrence(s: string, pat: string, rep: string)
    requires pat != [] && pat <= rep && Count(s, pat) > 0
    ensures Count(ReplaceAll(s, pat, rep), pat) > 0
    decreases |s|
  {
    if pat <= s {
      assert pat <= ReplaceAll(s, pat, rep);
    } else {
      ReplaceKeepsOccurrence(s[1..], pat, rep);
      var t := ReplaceAll(s, pat, rep);
      assert t[1..] == ReplaceAll(s[1..], pat, rep);
    }
  }

  lemma MulSucc(c: nat, d: int)
    ensures (c + 1) * d == c * d + d
  {
  }

  lemma ReplaceGrows(s: string, pat: string, rep: string)
    requires pat != [] && |rep| > |pat| && Count(s, pat) > 0
    ensures |ReplaceAll(s, pat, rep)| > |s|
  {
    ReplaceLength(s, pat, rep);
    ProductAtLeast(Count(s, pat), |rep| - |pat|);
  }

  lemma ProductAtLeast(c: nat, d: nat)
    requires c >= 1
    ensures c * d >= d
  {
    if c > 1 {
      ProductAtLeast(c - 1, d);
      assert c * d == (c - 1) * d + d;
    }
  }

  /** Inserting is not idempotent: when the key line occurs, every call adds
      text, and the key line is still there for the next call. */
  lemma NotIdempotent(fileStr: string, key: string, doi: string)
    requires Occurs(KeyLine(key), fileStr)
    ensures |InsertDoi(fileStr, key, doi)| > |fileStr|
    ensures Occurs(KeyLine(key), InsertDoi(fileStr, key, doi))
  {
    var pat, rep := KeyLine(key), KeyLine(key) + DoiLine(doi);
    assert |DoiLine(doi)| > 0;
    assert pat <= rep;
    CountOccurs(fileStr, pat);
    ReplaceGrows(fileStr, pat, rep);
    ReplaceKeepsOccurrence(fileStr, pat, rep);
    CountOccurs(ReplaceAll(fileStr, pat, rep), pat);
  }

  /** On an entry's key line alone, a second insertion with another DOI lands
      directly under the key line, above the first DOI line (unless the key line
      reappears inside the first DOI line). */
  lemma StackedInsert(key: string, a: string, b: string)
    requires !Occurs(KeyLine(key), DoiLine(a))
    ensures InsertDoi(InsertDoi(KeyLine(key), key, a), key, b)
            == KeyLine(key) + DoiLine(b) + DoiLine(a)
  {
    var pat := KeyLine(key);
    var lineA, lineB := DoiLine(a), DoiLine(b);
    var repA, repB := pat + lineA, pat + lineB;
    assert pat <= pat && pat[|pat|..] == [];
    assert ReplaceAll([], pat, repA) == [];
    assert ReplaceAll(pat, pat, repA) == repA + [];
    var once := pat + lineA;
    assert pat <= once && once[|pat|..] == lineA;
    CountOccurs(lineA, pat);
    NoCountUnchanged(lineA, pat, repB);
    assert ReplaceAll(once, pat, repB) == repB + lineA;
    assert InsertDoi(pat, key, a) == once;
    assert InsertDoi(once, key, b) == repB + lineA;
  }

  lemma KeyLineNotInDoiLine()
    ensures !Occurs(KeyLine("key"), DoiLine("A"))
  {
    var line := DoiLine("A");
    assert line == "  doi = {A},\n";
    assert forall j | 0 <= j < |line| :: line[j] != 'k';
    forall i | 0 <= i <= |line| ensures !(KeyLine("key") <= line[i..]) {
      assert i == |line| || line[i..][0] == line[i] != 'k';
    }
  }

  lemma SecondInsertGoesAbove()
    ensures InsertDoi(InsertDoi("key,\n", "key", "A"), "key", "B")
            == "key,\n  doi = {B},\n  doi = {A},\n"
  {
    KeyLineNotInDoiLine();
    StackedInsert("key", "A", "B");
    assert KeyLine("key") == "key,\n";
    assert DoiLine("A") == "  doi = {A},\n";
    assert DoiLine("B") == "  doi = {B},\n";
  }

  /** Text in which the pattern starts nowhere before `tail` is copied
      unchanged ahead of the rewritten `tail`. */
  lemma {:induction false} ReplaceSkipsTo(head: string, tail: string, pat: string, rep: string)
    requires pat != []
    requires forall i :: 0 <= i < |head| ==> !(pat <= (head + tail)[i..])
    ensures ReplaceAll(head + tail, pat, rep) == head + ReplaceAll(tail, pat, rep)
    decreases |head|
  {
    if head == [] {
      assert head + tail == tail;
    } else {
      var s := head + tail;
      assert s[0..] == s;
      assert s[1..] == head[1..] + tail;
      forall i | 0 <= i < |head[1..]|
        ensures !(pat <= (head[1..] + tail)[i..])
      {
        assert (head[1..] + tail)[i..] == s[i + 1..];
      }
      ReplaceSkipsTo(head[1..], tail, pat, rep);
    }
  }

  /** In a file where the key line occurs once and no match starts before it,
      the DOI line lands directly under the key line and the rest of the file
      is untouched. */
  lemma InsertUnderKeyLine(pre: string, post: string, key: string, doi: string)
    requires forall i :: 0 <= i < |pre| ==> !(KeyLine(key) <= (pre + (KeyLine(key) + post))[i..])
    requires !Occurs(KeyLine(key), post)
    ensures InsertDoi(pre + KeyLine(key) + post, key, doi)
            == pre + KeyLine(key) + DoiLine(doi) + post
  {
    var pat, rep := KeyLine(key), KeyLine(key) + DoiLine(doi);
    var tail := pat + post;
    assert pre + pat + post == pre + tail;
    ReplaceSkipsTo(pre, tail, pat, rep);
    assert pat <= tail && tail[|pat|..] == post;
    assert ReplaceAll(tail, pat, rep) == rep + ReplaceAll(post, pat, rep);
    CountOccurs(post, pat);
    NoCountUnchanged(post, pat, rep);
  }

  /** Inserting twice into such a file stacks the second DOI line above the
      first, directly under the key line (unless the key line reappears inside
      the first DOI line). */
  lemma StackedInsertInFile(pre: string, post: string, key: string, a: string, b: string)
    requires forall i :: 0 <= i < |pre| ==> !(KeyLine(key) <= (pre + (KeyLine(key) + post))[i..])
    requires !Occurs(KeyLine(key), post)
    requires !Occurs(KeyLine(key), DoiLine(a) + post)
    ensures InsertDoi(InsertDoi(pre + KeyLine(key) + post, key, a), key, b)
            == pre + KeyLine(key) + DoiLine(b) + DoiLine(a) + post
  {
    var pat := KeyLine(key);
    InsertUnderKeyLine(pre, post, key, a);
    var post' := DoiLine(a) + post;
    assert pre + pat + DoiLine(a) + post == pre + pat + post';
    forall i | 0 <= i < |pre| ensures !(pat <= (pre + (pat + post'))[i..]) {
      var t, t' := pre + (pat + post), pre + (pat + post');
      assert t[i..i + |pat|] == t'[i..i + |pat|];
      assert !(pat <= t[i..]);
    }
    InsertUnderKeyLine(pre, post', key, b);
    assert pre + pat + DoiLine(b) + post' == pre + pat + DoiLine(b) + DoiLine(a) + post;
  }

  /** The key line is matched as plain text wherever it starts, so it is also
      found at the end of a longer key: the entry `asmith` receives the DOI
      meant for `smith`. */
  lemma LongerKeyAlsoMatched()
    ensures InsertDoi("{asmith,\n", "smith", "D") == "{asmith,\n  doi = {D},\n"
  {
    var pat, rep := KeyLine("smith"), KeyLine("smith") + DoiLine("D");
    assert pat == "smith,\n";
    var head := "{a";
    assert head + pat == "{asmith,\n";
    forall i | 0 <= i < |head| ensures !(pat <= (head + pat)[i..]) {
      assert (head + pat)[i..][0] == head[i] != 's';
    }
    ReplaceSkipsTo(head, pat, pat, rep);
    assert pat <= pat && pat[|pat|..] == [];
    assert ReplaceAll([], pat, rep) == [];
    assert ReplaceAll(pat, pat, rep) == rep + [];
    assert DoiLine("D") == "  doi = {D},\n";
  }
}
