/**
 string_split of src/kstring.c.  The first character of a token is never compared with the delimiters,
 so what string_split makes is the one way to cut a string at delimiters into tokens that are not empty,
 the last excepted, and hold no delimiter after their first character.
 */
module Split {

  type CString = s: string | '\0' !in s

  /** A string_t: its str may be null. */
  datatype Str = Null | Str(str: CString)

  // ---------- Cutting ----------

  /** The first position from k on that holds a delimiter, or the end. */
  function Cut(s: string, delims: string, k: nat): (n: nat)
    requires k <= |s|
    ensures k <= n <= |s|
    ensures forall i :: k <= i < n ==> s[i] !in delims
    ensures n < |s| ==> s[n] in delims
    decreases |s| - k
  {
    if k == |s| || s[k] in delims then k else Cut(s, delims, k+1)
  }

  function TokenLength(s: string, delims: string): (n: nat)
    ensures n <= |s| && (n == 0 ==> s == "")
  {
    if s == "" then 0 else Cut(s, delims, 1)
  }

  function Tokens(s: string, delims: string): seq<string> {
    var n := TokenLength(s, delims);
    if n == |s| then [s] else [s[..n]] + Tokens(s[n+1..], delims)
  }

  /** The delimiters that end tokens. */
  function Enders(s: string, delims: string): string {
    var n := TokenLength(s, delims);
    if n == |s| then "" else [s[n]] + Enders(s[n+1..], delims)
  }

  // ---------- What a cut is ----------

  /** The tokens, with what ended each between them. */
  function Joined(tokens: seq<string>, enders: string): string
    requires |tokens| == |enders| + 1
  {
    if enders == "" then tokens[0] else tokens[0] + [enders[0]] + Joined(tokens[1..], enders[1..])
  }

  ghost predicate Whole(token: string, delims: string) {
    forall i :: 0 < i < |token| ==> token[i] !in delims
  }

  ghost predicate IsCut(s: string, delims: string, tokens: seq<string>, enders: string) {
    && |tokens| == |enders| + 1
    && Joined(tokens, enders) == s
    && (forall i :: 0 <= i < |enders| ==> enders[i] in delims && tokens[i] != "")
    && (forall i :: 0 <= i < |tokens| ==> Whole(tokens[i], delims))
  }

  /** Rebuilding: the tokens and the delimiters between them make up the string. */
  lemma {:induction false} TokensCut(s: string, delims: string)
    ensures IsCut(s, delims, Tokens(s, delims), Enders(s, delims))
    decreases |s|
  {
    var n := TokenLength(s, delims);
    if n < |s| {
      TokensCut(s[n+1..], delims);
      assert s == s[..n] + [s[n]] + s[n+1..];
    }
  }

  lemma FirstToken(s: string, delims: string, tokens: seq<string>, enders: string)
    requires IsCut(s, delims, tokens, enders)
    ensures |tokens[0]| == TokenLength(s, delims) && tokens[0] == s[..|tokens[0]|]
  {
    var t := tokens[0];
    if enders == "" {
      assert s == t;
    } else {
      assert s == t + [enders[0]] + Joined(tokens[1..], enders[1..]);
      assert s[|t|] == enders[0];
      forall i | 0 < i < |t| ensures s[i] !in delims {
        assert s[i] == t[i];
      }
    }
  }

  lemma RestIsCut(s: string, delims: string, tokens: seq<string>, enders: string)
    requires IsCut(s, delims, tokens, enders) && enders != ""
    ensures var n := |tokens[0]|;
            n < |s| && s[n] == enders[0] && IsCut(s[n+1..], delims, tokens[1..], enders[1..])
  {
    var rest := Joined(tokens[1..], enders[1..]);
    assert s == tokens[0] + [enders[0]] + rest;
    assert s[|tokens[0]|+1..] == rest;
  }

  /** There is no other way. */
  lemma {:induction false} OnlyCut(s: string, delims: string, tokens: seq<string>, enders: string)
    requires IsCut(s, delims, tokens, enders)
    ensures tokens == Tokens(s, delims) && enders == Enders(s, delims)
    decreases |s|
  {
    FirstToken(s, delims, tokens, enders);
    if enders != "" {
      RestIsCut(s, delims, tokens, enders);
      OnlyCut(s[|tokens[0]|+1..], delims, tokens[1..], enders[1..]);
      assert tokens == [tokens[0]] + tokens[1..];
      assert enders == [enders[0]] + enders[1..];
    }
  }

  // ---------- string_split ----------

  /** The inner loop: where at is among the delimiters, or how many there are. */
  method Which(at: char, delimiters: string) returns (i: nat)
    ensures i <= |delimiters|
    ensures if i < |delimiters| then delimiters[i] == at else at !in delimiters
  {
    i := 0;
    while i < |delimiters|
      invariant i <= |delimiters|
      invariant forall j :: 0 <= j < i ==> delimiters[j] != at
    {
      if at == delimiters[i] { break; }
      i := i + 1;
    }
  }

  /** r, and the tokens of s from position b on. */
  function Pending(r: seq<string>, s: string, delims: string, b: nat): seq<string>
    requires b <= |s|
  {
    r + Tokens(s[b..], delims)
  }

  /** v with the tokens of s added, where there are delimiters and s has a string. */
  method StringSplit(s: Str, v: seq<string>, delimiters: CString) returns (r: seq<string>)
    ensures r == if s.Null? || delimiters == "" then v else v + Tokens(s.str, delimiters)
  {
    if s.Str? { assert s.str[0..] == s.str; }
    r := v;
    if s.Null? { return; }
    var size := |delimiters|;
    if size == 0 { return; }
    var str := s.str;
    ghost var all := Pending(v, str, delimiters, 0);
    var b, cur := 0, 0;
    while cur < |str|
      invariant 0 <= b <= cur <= |str|
      invariant Clear(str, delimiters, b, cur + 1)
      invariant Pending(r, str, delimiters, b) == all
    {
      cur := cur + 1;
      var at := if cur < |str| then str[cur] else '\0';
      var i := Which(at, delimiters);
      if i < size {
        TokenAdded(r, str, delimiters, b, cur);
        r := r + [str[b..cur]];
        cur := cur + 1;
        b := cur;
      } else {
        ClearOn(str, delimiters, b, cur);
      }
    }
    LastToken(r, str, delimiters, b, cur);
    r := r + [str[b..cur]];
  }

  /** Between position b and cur there is no delimiter. */
  ghost predicate Clear(s: string, delims: string, b: nat, cur: nat) {
    forall k :: b < k < cur && k < |s| ==> s[k] !in delims
  }

  lemma ClearOn(s: string, delims: string, b: nat, cur: nat)
    requires Clear(s, delims, b, cur) && (cur < |s| ==> s[cur] !in delims)
    ensures Clear(s, delims, b, cur + 1)
  {
  }

  lemma TokenAt(s: string, delims: string, b: nat, cur: nat)
    requires b < cur < |s| && s[cur] in delims && Clear(s, delims, b, cur)
    ensures Tokens(s[b..], delims) == [s[b..cur]] + Tokens(s[cur+1..], delims)
  {
    var rest := s[b..];
    forall k | 0 < k < cur - b ensures rest[k] !in delims {
      assert rest[k] == s[b+k];
    }
    assert rest[cur-b] == s[cur];
    assert rest[..cur-b] == s[b..cur] && rest[cur-b+1..] == s[cur+1..];
  }

  lemma TokenAdded(before: seq<string>, s: string, delims: string, b: nat, cur: nat)
    requires b < cur < |s| && s[cur] in delims && Clear(s, delims, b, cur)
    ensures Pending(before, s, delims, b) == Pending(before + [s[b..cur]], s, delims, cur+1)
  {
    TokenAt(s, delims, b, cur);
  }

  lemma LastToken(before: seq<string>, s: string, delims: string, b: nat, cur: nat)
    requires b <= cur == |s| && Clear(s, delims, b, cur)
    ensures Pending(before, s, delims, b) == before + [s[b..cur]]
  {
    var rest := s[b..];
    forall k | 0 < k < |rest| ensures rest[k] !in delims {
      assert rest[k] == s[b+k];
    }
    assert s[b..cur] == rest && Tokens(rest, delims) == [rest];
  }
}
