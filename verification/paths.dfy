/** Logical paths as the library handles them: plain strings cut and glued
    with JavaScript's `String.prototype.split('/')` and
    `Array.prototype.join('/')`. */
module Paths {

  /** `s.split('/')`: the pieces between the separators, in order.  Never
      empty: the empty string splits into one empty piece. */
  function Split(s: string): (parts: seq<string>)
    ensures |parts| >= 1
    ensures forall i :: 0 <= i < |parts| ==> '/' !in parts[i]
    decreases |s|
  {
    if s == [] then [""]
    else
      var rest := Split(s[1..]);
      if s[0] == '/' then [""] + rest
      else [[s[0]] + rest[0]] + rest[1..]
  }

  /** `parts.join('/')`; the empty list joins to the empty string. */
  function Join(parts: seq<string>): (s: string)
  {
    if |parts| == 0 then ""
    else if |parts| == 1 then parts[0]
    else parts[0] + "/" + Join(parts[1..])
  }

  /** The one-character normalisation `_getDir` applies before splitting:
      a leading `.` or `/` is dropped. */
  function StripLead(s: string): (r: string)
  {
    if |s| > 0 && (s[0] == '.' || s[0] == '/') then s[1..] else s
  }

  /** The directory part `renameNative` computes: split, pop the last piece,
      join the rest. */
  function Parent(p: string): (dir: string)
  {
    var parts := Split(p);
    Join(parts[..|parts| - 1])
  }

  /** The file-name part: the last piece of the split. */
  function Last(p: string): (name: string)
  {
    var parts := Split(p);
    parts[|parts| - 1]
  }

  /** A path every piece of which is a non-empty name not starting with `.`:
      the shape of the data-file names the database passes in, and the
      shape for which `_getDir`'s normalisation changes nothing. */
  predicate Plain(p: string)
  {
    PlainParts(Split(p))
  }

  predicate PlainParts(parts: seq<string>)
  {
    forall i :: 0 <= i < |parts| ==> parts[i] != "" && parts[i][0] != '.' && '/' !in parts[i]
  }

  /** Joining undoes splitting: gluing the pieces of a split back together
      gives the original string. */
  lemma {:induction false} JoinSplit(s: string)
    ensures Join(Split(s)) == s
    decreases |s|
  {
    if s != [] {
      var rest := Split(s[1..]);
      JoinSplit(s[1..]);
      if s[0] == '/' {
        assert Split(s) == [""] + rest;
        assert ([""] + rest)[1..] == rest;
      } else {
        var parts := Split(s);
        assert parts == [[s[0]] + rest[0]] + rest[1..];
        if |rest| == 1 {
          assert s == [s[0]] + s[1..];
        } else {
          assert parts[1..] == rest[1..];
          assert Join(rest) == rest[0] + "/" + Join(rest[1..]);
          assert s == [s[0]] + s[1..];
        }
      }
    }
  }

  /** Prepending a separator-free prefix extends the first piece only. */
  lemma {:induction false} SplitPrefix(a: string, s: string)
    requires '/' !in a
    ensures Split(a + s) == [a + Split(s)[0]] + Split(s)[1..]
    decreases |a|
  {
    if a != [] {
      assert (a + s)[1..] == a[1..] + s;
      assert (a + s)[0] == a[0];
      SplitPrefix(a[1..], s);
      assert [a[0]] + (a[1..] + Split(s)[0]) == a + Split(s)[0];
    } else {
      var ps := Split(s);
      assert a + s == s;
      assert a + ps[0] == ps[0];
      assert ps == [ps[0]] + ps[1..];
    }
  }

  /** Splitting undoes joining: `split` recovers the pieces whenever none of
      them contains the separator.  The inverse direction of `JoinSplit`. */
  lemma {:induction false} SplitJoin(parts: seq<string>)
    requires |parts| >= 1
    requires forall i :: 0 <= i < |parts| ==> '/' !in parts[i]
    ensures Split(Join(parts)) == parts
    decreases |parts|
  {
    if |parts| == 1 {
      SplitPrefix(parts[0], "");
      assert parts[0] + "" == parts[0];
      assert Split(parts[0]) == [parts[0]];
    } else {
      SplitJoin(parts[1..]);
      var rest := Join(parts[1..]);
      assert Split("/" + rest) == [""] + Split(rest) by {
        assert ("/" + rest)[1..] == rest;
      }
      assert parts[0] + "/" + rest == parts[0] + ("/" + rest);
      assert Join(parts) == parts[0] + ("/" + rest);
      SplitPrefix(parts[0], "/" + rest);
      assert Split("/" + rest)[0] == "";
      assert Split("/" + rest)[1..] == parts[1..];
      assert parts[0] + "" == parts[0];
      assert [parts[0]] + parts[1..] == parts;
    }
  }

  /** The tail handed to `_getDir`'s recursive call is strictly shorter than
      the path it came from, which is why the directory walk terminates. */
  lemma RestShorter(s: string)
    requires |Split(s)| > 1
    ensures |Join(Split(s)[1..])| < |s|
  {
    var parts := Split(s);
    JoinSplit(s);
    assert Join(parts) == parts[0] + "/" + Join(parts[1..]);
  }

  /** A string splits into one piece exactly when it has no separator. */
  lemma {:induction false} SplitSingle(s: string)
    ensures |Split(s)| == 1 <==> '/' !in s
    decreases |s|
  {
    if s != [] {
      SplitSingle(s[1..]);
      assert s == [s[0]] + s[1..];
    }
  }

  /** Joining all but the last piece, then the last piece, gives the whole. */
  lemma {:induction false} JoinSnoc(parts: seq<string>)
    requires |parts| >= 2
    ensures Join(parts) == Join(parts[..|parts| - 1]) + "/" + parts[|parts| - 1]
    decreases |parts|
  {
    if |parts| > 2 {
      JoinSnoc(parts[1..]);
      assert parts[1..][..|parts| - 2] == parts[1..|parts| - 1];
      assert parts[..|parts| - 1][1..] == parts[1..|parts| - 1];
    }
  }

  /** `Parent` and `Last` cut a path at its last separator: the two halves
      glue back to the path, and a path without separator is all file name
      with an empty directory part. */
  lemma ParentLast(p: string)
    ensures '/' !in Last(p)
    ensures '/' in p ==> p == Parent(p) + "/" + Last(p)
    ensures '/' !in p ==> Parent(p) == "" && Last(p) == p
  {
    var parts := Split(p);
    SplitSingle(p);
    JoinSplit(p);
    if |parts| >= 2 {
      JoinSnoc(parts);
    }
  }

  /** `ps` with `c` added to the end of its last piece. */
  function ExtendLast(ps: seq<string>, c: char): (r: seq<string>)
    requires |ps| >= 1
  {
    ps[..|ps| - 1] + [ps[|ps| - 1] + [c]]
  }

  /** Extending the last piece commutes with a new first piece... */
  lemma ExtendAfterFirst(ps: seq<string>, c: char)
    requires |ps| >= 1
    ensures [""] + ExtendLast(ps, c) == ExtendLast([""] + ps, c)
  {
    assert ([""] + ps)[..|ps|] == [""] + ps[..|ps| - 1];
  }

  /** ...and with a character glued to the front of the first piece. */
  lemma ExtendAfterGlue(ch: char, ps: seq<string>, c: char)
    requires |ps| >= 1
    ensures var e := ExtendLast(ps, c);
            [[ch] + e[0]] + e[1..] == ExtendLast([[ch] + ps[0]] + ps[1..], c)
  {
    var e := ExtendLast(ps, c);
    var g := [[ch] + ps[0]] + ps[1..];
    if |ps| == 1 {
      assert e == [ps[0] + [c]];
      assert [ch] + (ps[0] + [c]) == ([ch] + ps[0]) + [c];
    } else {
      assert e[0] == ps[0];
      assert e[1..] == ps[1..|ps| - 1] + [ps[|ps| - 1] + [c]];
      assert g[..|g| - 1] == [[ch] + ps[0]] + ps[1..|ps| - 1];
    }
  }

  /** Appending a non-separator character (the `~` of a temporary file)
      changes only the last piece, so the directory part is unchanged. */
  lemma {:induction false} SplitAppend(s: string, c: char)
    requires c != '/'
    ensures Split(s + [c]) == ExtendLast(Split(s), c)
    decreases |s|
  {
    if s == [] {
      assert s + [c] == [c] && [c][1..] == [];
      assert [c] + "" == [c];
      assert Split([c]) == [[c]];
    } else {
      var rest := Split(s[1..]);
      assert (s + [c])[1..] == s[1..] + [c] && (s + [c])[0] == s[0];
      SplitAppend(s[1..], c);
      if s[0] == '/' {
        ExtendAfterFirst(rest, c);
      } else {
        ExtendAfterGlue(s[0], rest, c);
      }
    }
  }

  lemma TempSibling(p: string)
    ensures Parent(p + "~") == Parent(p)
    ensures Last(p + "~") == Last(p) + "~"
  {
    SplitAppend(p, '~');
  }

  /** `p` is `q` behind a lead that `_getDir`'s normalisation drops: a single
      `/` in front of a path without a lead of its own, or `./` in front of
      any path. */
  predicate LeadOf(p: string, q: string)
  {
    || (p == "/" + q && StripLead(q) == q)
    || p == "./" + q
  }

  /** A lead is one more piece in front: the file name stays, and the
      directory part either normalises to nothing (a one-piece `q`) or is
      the directory part of `q` behind the same lead. */
  lemma LeadPieces(p: string, q: string)
    requires LeadOf(p, q)
    ensures |Split(p)| == |Split(q)| + 1
    ensures Last(p) == Last(q)
    ensures |Split(q)| == 1 ==> StripLead(Parent(p)) == "" && Parent(q) == ""
    ensures |Split(q)| > 1 ==> LeadOf(Parent(p), Parent(q))
  {
    var sq := Split(q);
    var h := LeadSplit(p, q);
    var ps := Split(p);
    assert ps[..|ps| - 1] == [h] + sq[..|sq| - 1];
    if |sq| > 1 {
      JoinCons(h, sq[..|sq| - 1]);
      if h == "" {
        ParentKeepsNoLead(q);
        assert Parent(p) == "/" + Parent(q);
      } else {
        assert Parent(p) == "./" + Parent(q);
      }
    }
  }

  /** The pieces of a lead path: the lead's own piece, then those of `q`. */
  lemma LeadSplit(p: string, q: string) returns (h: string)
    requires LeadOf(p, q)
    ensures h == (if p == "./" + q then "." else "")
    ensures Split(p) == [h] + Split(q)
  {
    h := if p == "./" + q then "." else "";
    assert Split("/" + q) == [""] + Split(q) by {
      assert ("/" + q)[1..] == q;
    }
    if p == "./" + q {
      assert p == "." + ("/" + q);
      SplitPrefix(".", "/" + q);
      assert "." + "" == ".";
    }
  }

  lemma JoinCons(h: string, xs: seq<string>)
    requires |xs| >= 1
    ensures Join([h] + xs) == h + "/" + Join(xs)
  {
    assert ([h] + xs)[1..] == xs;
  }

  /** The directory part of a path of several pieces is a prefix of it, so
      it starts the way the path does. */
  lemma ParentKeepsNoLead(q: string)
    requires StripLead(q) == q && |Split(q)| > 1
    ensures StripLead(Parent(q)) == Parent(q)
  {
    var d := Parent(q);
    ParentLast(q);
    SplitSingle(q);
    assert q == d + ("/" + Last(q));
    assert |d| > 0 ==> d[0] == q[0];
  }

  /** The directory part behind a leading `/`: nothing for a one-piece
      path, otherwise the old directory part behind the same `/`, which is
      then not empty. */
  lemma ParentSlash(x: string)
    requires StripLead(x) == x
    ensures |Split(x)| == 1 ==> Parent("/" + x) == "" && Parent(x) == ""
    ensures |Split(x)| > 1 ==> Parent("/" + x) == "/" + Parent(x) && Parent(x) != ""
  {
    var h := LeadSplit("/" + x, x);
    var sx := Split(x);
    var ps := Split("/" + x);
    assert ps[..|ps| - 1] == [h] + sx[..|sx| - 1];
    if |sx| > 1 {
      JoinCons(h, sx[..|sx| - 1]);
      ParentLast(x);
      SplitSingle(x);
      assert Parent(x) == "" ==> x == "/" + Last(x);
    }
  }

  /** The temporary sibling keeps the lead. */
  lemma LeadTemp(p: string, q: string)
    requires LeadOf(p, q)
    ensures LeadOf(p + "~", q + "~")
  {
    if p == "/" + q {
      assert p + "~" == "/" + (q + "~");
      assert |q| > 0 ==> (q + "~")[0] == q[0];
    } else {
      assert p + "~" == "./" + (q + "~");
    }
  }
}
