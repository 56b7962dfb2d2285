/** The character buffers that src/cJSON.c allocates, and the string functions it uses on them. */
module JsonBuffers {
  import opened JsonText
  import opened Decimals

  type Octet = c: int | 0 <= c < 256

  /** The buffer holds the text as a C string. */
  predicate Holds(a: array<Octet>, s: Text)
    reads a
  {
    |s| < a.Length && a[|s|] == 0 && forall i :: 0 <= i < |s| ==> a[i] == s[i]
  }

  /** The buffer starts with the text. */
  predicate Begins(a: array<Octet>, s: Text)
    reads a
  {
    |s| <= a.Length && forall i :: 0 <= i < |s| ==> a[i] == s[i]
  }

  /** sprintf of a text that is already known: its characters and a NUL. */
  method Sprintf(a: array<Octet>, at: nat, t: Text, ghost before: Text)
    requires Begins(a, before) && |before| == at && at + |t| < a.Length
    modifies a
    ensures Begins(a, before + t) && a[at + |t|] == 0
  {
    for i := 0 to |t|
      invariant Begins(a, before + t[..i])
    {
      a[at + i] := t[i];
      assert t[..i + 1] == t[..i] + [t[i]];
    }
    a[at + |t|] := 0;
    assert t[..|t|] == t;
  }

  /** One character after the text so far. */
  method Put(a: array<Octet>, at: nat, c: Char, ghost before: Text)
    requires Begins(a, before) && |before| == at < a.Length
    modifies a
    ensures Begins(a, before + [c])
  {
    a[at] := c;
  }

  /** A NUL that ends the text. */
  method Finish(out: array<Octet>, at: nat, ghost s: Text)
    requires Begins(out, s) && |s| == at < out.Length
    modifies out
    ensures Holds(out, s) && Begins(out, s)
  {
    out[at] := 0;
  }

  /** One character after the text so far, and a NUL. */
  method Close(out: array<Octet>, at: nat, c: Char, ghost before: Text)
    requires Begins(out, before) && |before| == at && at + 1 < out.Length
    modifies out
    ensures Holds(out, before + [c])
  {
    Put(out, at, c, before);
    out[at + 1] := 0;
  }

  /** cJSON_strdup */
  method Strdup(s: Text) returns (out: array<Octet>)
    ensures fresh(out) && Holds(out, s)
  {
    out := new Octet[|s| + 1](_ => 0);
    Sprintf(out, 0, s, []);
    assert [] + s == s;
  }

  /** strlen */
  method Strlen(a: array<Octet>, ghost s: Text) returns (len: nat)
    requires Holds(a, s)
    ensures len == |s|
  {
    len := 0;
    while a[len] != 0
      invariant len <= |s|
      decreases |s| - len
    {
      len := len + 1;
    }
  }

  /** strcpy */
  method Strcpy(out: array<Octet>, at: nat, a: array<Octet>, ghost s: Text, ghost before: Text)
    requires out != a && Holds(a, s) && Begins(out, before) && |before| == at && at + |s| < out.Length
    modifies out
    ensures Begins(out, before + s) && out[at + |s|] == 0
  {
    var i := 0;
    while a[i] != 0
      invariant i <= |s| && Holds(a, s) && Begins(out, before + s[..i])
      decreases |s| - i
    {
      out[at + i] := a[i];
      assert s[..i + 1] == s[..i] + [s[i]];
      i := i + 1;
    }
    out[at + i] := 0;
    assert s[..|s|] == s;
  }

  lemma BeginsNone(a: array<Octet>)
    ensures Begins(a, [])
  {
  }

  /** The string in the buffer, as a value. */
  method Contents(a: array<Octet>, len: nat, ghost s: Text) returns (t: Text)
    requires Holds(a, s) && |s| == len
    ensures t == s
  {
    t := [];
    for i := 0 to len
      invariant t == s[..i]
    {
      t := t + [a[i]];
    }
  }
}
