/**
 * The first half of `dispatch_connection`: the broker reads the first bytes
 * of a new connection, splits them into whitespace-separated words and routes
 * the connection on the second word, the request path.
 */
module Dispatch {
  import opened ByteStrings

  /** `b'/register'`, the path that turns a connection into a tunnel. */
  const RegisterPath: Bytes := Ascii("/register")

  /** What becomes of a new connection. */
  datatype Verdict =
    | Close                        // closed at once, no handler runs
    | Tunnel                       // handed to `handle_tunnel`
    | Client(initialData: Bytes)   // handed to `handle_client` with the bytes read so far

  /**
   * Whitespace as `str.split()` sees it on ASCII text: tab, LF, VT, FF, CR,
   * the separators 0x1C to 0x1F, and space.
   */
  predicate IsSpace(b: byte)
  {
    9 <= b <= 13 || 28 <= b <= 32
  }

  predicate NoSpace(s: Bytes)
  {
    forall i :: 0 <= i < |s| ==> !IsSpace(s[i])
  }

  /** The length of the word `s` starts with: up to the first whitespace byte. */
  function WordLength(s: Bytes): (n: nat)
    ensures n <= |s| && NoSpace(s[..n])
    ensures n < |s| ==> IsSpace(s[n])
  {
    if s == [] || IsSpace(s[0]) then 0 else 1 + WordLength(s[1..])
  }

  /** `data.decode(errors='ignore').split()`: the maximal runs of non-whitespace bytes, in order. */
  function Words(s: Bytes): (words: seq<Bytes>)
    ensures forall i :: 0 <= i < |words| ==> |words[i]| > 0 && NoSpace(words[i])
    decreases |s|
  {
    if s == [] then []
    else if IsSpace(s[0]) then Words(s[1..])
    else
      var n := WordLength(s);
      [s[..n]] + Words(s[n..])
  }

  /** The routing decision of `dispatch_connection` on the first bytes read. */
  function Classify(data: Bytes): (v: Verdict)
    ensures data == [] ==> v == Close
    ensures v != Close ==> |Words(data)| >= 2
    ensures v == Tunnel ==> Words(data)[1] == RegisterPath
    ensures v.Client? ==> v.initialData == data && Words(data)[1] != RegisterPath
  {
    if data == [] then Close
    else
      var words := Words(data);
      if |words| < 2 then Close
      else if words[1] == RegisterPath then Tunnel
      else Client(data)
  }

  // ---------------------------------------------------------------------------
  // Words
  // ---------------------------------------------------------------------------

  /** A word stops at the first whitespace, wherever that comes. */
  lemma {:induction false} WordLengthBefore(a: Bytes, b: Bytes)
    requires |b| > 0 && IsSpace(b[0])
    ensures WordLength(a + b) == WordLength(a)
    decreases |a|
  {
    if a != [] && !IsSpace(a[0]) {
      assert (a + b)[1..] == a[1..] + b;
      WordLengthBefore(a[1..], b);
    }
  }

  /** A whitespace byte separates words: the words on either side do not merge. */
  lemma {:induction false} WordsAround(a: Bytes, w: byte, b: Bytes)
    requires IsSpace(w)
    ensures Words(a + [w] + b) == Words(a) + Words(b)
    decreases |a|
  {
    var s := a + [w] + b;
    if a == [] {
      assert s[1..] == b;
    } else if IsSpace(a[0]) {
      assert s[1..] == a[1..] + [w] + b;
      WordsAround(a[1..], w, b);
    } else {
      assert s == a + ([w] + b);
      WordLengthBefore(a, [w] + b);
      var n := WordLength(a);
      assert s[..n] == a[..n];
      if n < |a| {
        assert s[n..] == a[n..] + [w] + b;
        WordsAround(a[n..], w, b);
      } else {
        assert a[n..] == [];
        assert s[n..] == [w] + b;
        assert ([w] + b)[1..] == b;
      }
    }
  }

  /** A non-empty run without whitespace is a single word. */
  lemma SingleWord(s: Bytes)
    requires |s| > 0 && NoSpace(s)
    ensures Words(s) == [s]
  {
    WholeWord(s);
    assert s[..|s|] == s && s[|s|..] == [];
  }

  lemma {:induction false} WholeWord(s: Bytes)
    requires NoSpace(s)
    ensures WordLength(s) == |s|
  {
    if s != [] {
      WholeWord(s[1..]);
    }
  }

  /** Leading whitespace produces no word. */
  lemma {:induction false} LeadingSpace(pad: Bytes, s: Bytes)
    requires AllSpace(pad)
    ensures Words(pad + s) == Words(s)
    decreases |pad|
  {
    if pad != [] {
      assert (pad + s)[1..] == pad[1..] + s;
      LeadingSpace(pad[1..], s);
    } else {
      assert pad + s == s;
    }
  }

  predicate AllSpace(s: Bytes)
  {
    forall i :: 0 <= i < |s| ==> IsSpace(s[i])
  }

  /** A run without whitespace followed by nothing or by whitespace is the first word. */
  lemma WordThenRest(u: Bytes, rest: Bytes)
    requires |u| > 0 && NoSpace(u)
    requires rest == [] || IsSpace(rest[0])
    ensures Words(u + rest) == [u] + (if rest == [] then [] else Words(rest[1..]))
  {
    if rest == [] {
      assert u + rest == u;
      SingleWord(u);
    } else {
      assert u + rest == u + [rest[0]] + rest[1..];
      WordsAround(u, rest[0], rest[1..]);
      SingleWord(u);
    }
  }

  // ---------------------------------------------------------------------------
  // Classification
  // ---------------------------------------------------------------------------

  /**
   * A request line `METHOD path ...`, after any leading whitespace and with any
   * run of whitespace between the words, is routed on its path: only a path of
   * exactly `/register` makes the connection a tunnel, and a client keeps every
   * byte read.
   */
  lemma RoutedOnPath(pad: Bytes, method_: Bytes, gap: Bytes, path: Bytes, rest: Bytes)
    requires AllSpace(pad) && |gap| > 0 && AllSpace(gap)
    requires |method_| > 0 && NoSpace(method_) && |path| > 0 && NoSpace(path)
    requires rest == [] || IsSpace(rest[0])
    ensures var data := pad + method_ + gap + path + rest;
      Classify(data) == if path == RegisterPath then Tunnel else Client(data)
  {
    var data := pad + method_ + gap + path + rest;
    assert data == pad + (method_ + [gap[0]] + (gap[1..] + (path + rest)));
    LeadingSpace(pad, method_ + [gap[0]] + (gap[1..] + (path + rest)));
    WordsAround(method_, gap[0], gap[1..] + (path + rest));
    LeadingSpace(gap[1..], path + rest);
    SingleWord(method_);
    WordThenRest(path, rest);
  }

  /**
   * Whitespace, at most one word, whitespace: fewer than two words, so the
   * connection is closed. This covers the empty read.
   */
  lemma ClosedWithoutSecondWord(p: Bytes, u: Bytes, q: Bytes)
    requires AllSpace(p) && NoSpace(u) && AllSpace(q)
    ensures Classify(p + u + q) == Close
  {
    assert p + u + q == p + (u + q);
    LeadingSpace(p, u + q);
    assert q == q + [];
    LeadingSpace(q, []);
    if u == [] {
      assert u + q == q;
    } else if q == [] {
      WordThenRest(u, q);
    } else {
      WordThenRest(u, q);
      assert AllSpace(q[1..]);
      assert q[1..] == q[1..] + [];
      LeadingSpace(q[1..], []);
    }
  }

  lemma RegisterPathIsWord()
    ensures |RegisterPath| == 9 && NoSpace(RegisterPath)
  {
  }

  /** The words are looked for in the whole buffer, not just the first line. */
  lemma PathMayFollowNewline()
    ensures Classify(Ascii("GET\n/register")) == Tunnel
  {
    NewlineExampleParts();
    GetIsWord();
    RegisterPathIsWord();
    TwoWords(Ascii("GET"), 10, RegisterPath);
  }

  lemma NewlineExampleParts()
    ensures Ascii("GET\n/register") == Ascii("GET") + [10] + RegisterPath
  {
  }

  lemma GetIsWord()
    ensures |Ascii("GET")| == 3 && NoSpace(Ascii("GET"))
  {
  }

  /** Two words with whitespace between them. */
  lemma TwoWords(a: Bytes, w: byte, b: Bytes)
    requires |a| > 0 && NoSpace(a) && IsSpace(w) && |b| > 0 && NoSpace(b)
    ensures Words(a + [w] + b) == [a, b]
  {
    WordsAround(a, w, b);
    SingleWord(a);
    SingleWord(b);
  }
}
