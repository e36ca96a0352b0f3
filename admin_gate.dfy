/** `isAdminEmail`: the comma/space/newline separated `ADMIN_EMAILS` allow-list,
    trimmed and lower-cased entry by entry, and a case-insensitive membership
    test of the signed-in email. The same function appears, letter for letter,
    in the admin page and in the admin actions. */
module AdminGate {
  import opened Wrappers
  import opened Text

  /** The separator class `[, \n]` of the split pattern `/[, \n]+/`. */
  predicate IsDelim(c: char) {
    c == ',' || c == ' ' || c == '\n'
  }

  predicate DelimFree(s: string) {
    forall k :: 0 <= k < |s| ==> !IsDelim(s[k])
  }

  /** The characters of `s` that are not separators, in order. */
  function StripDelims(s: string): string {
    if s == [] then [] else (if IsDelim(s[0]) then [] else [s[0]]) + StripDelims(s[1..])
  }

  function Concat(pieces: seq<string>): string {
    if pieces == [] then [] else pieces[0] + Concat(pieces[1..])
  }

  /** One step of the split, from the pieces `rest` of the text after `c`: a separator
      opens a new piece unless a separator follows it (`nextDelim`) and has already
      opened one; any other character extends the first piece. */
  function Step(c: char, nextDelim: bool, rest: seq<string>): (r: seq<string>)
    requires |rest| >= 1
    ensures |r| >= 1
  {
    if IsDelim(c) then
      if rest[0] == "" && nextDelim then rest else [""] + rest
    else
      [[c] + rest[0]] + rest[1..]
  }

  /** `s.split(/[, \n]+/)`: the pieces between maximal runs of separators, with an
      empty first (last) piece when `s` starts (ends) with a separator, and `[""]`
      for the empty string. */
  function Split(s: string): (r: seq<string>)
    ensures |r| >= 1
  {
    if s == [] then [""]
    else Step(s[0], |s| > 1 && IsDelim(s[1]), Split(s[1..]))
  }

  /** A step only looks at the first piece of what follows it. */
  lemma StepAppend(c: char, nextDelim: bool, xr: seq<string>, yr: seq<string>)
    requires |xr| >= 1
    ensures Step(c, nextDelim, xr + yr) == Step(c, nextDelim, xr) + yr
  {
    var r := xr + yr;
    assert r[0] == xr[0];
    if !IsDelim(c) {
      assert r[1..] == xr[1..] + yr;
      assert [[c] + xr[0]] + (xr[1..] + yr) == ([[c] + xr[0]] + xr[1..]) + yr;
    } else if !(xr[0] == "" && nextDelim) {
      assert [""] + r == ([""] + xr) + yr;
    }
  }

  /** No piece contains a separator, and the pieces hold every other character of
      `s`, in order. */
  lemma {:induction false} SplitSound(s: string)
    ensures forall i :: 0 <= i < |Split(s)| ==> DelimFree(Split(s)[i])
    ensures Concat(Split(s)) == StripDelims(s)
  {
    if s != [] {
      SplitSound(s[1..]);
      var rest := Split(s[1..]);
      if !IsDelim(s[0]) {
        var r := Split(s);
        assert r[0] == [s[0]] + rest[0] && r[1..] == rest[1..];
        assert forall i :: 1 <= i < |r| ==> r[i] == rest[i];
        assert Concat(rest) == rest[0] + Concat(rest[1..]);
        assert Concat(r) == r[0] + Concat(r[1..]);
        assert [s[0]] + rest[0] + Concat(rest[1..]) == ([s[0]] + rest[0]) + Concat(rest[1..]);
      } else if !(rest[0] == "" && |s| > 1 && IsDelim(s[1])) {
        var r := Split(s);
        assert r == [""] + rest;
        assert forall i :: 1 <= i < |r| ==> r[i] == rest[i - 1];
        assert Concat(r) == "" + Concat(rest);
      }
    }
  }

  /** `e.trim().toLowerCase()`. */
  function Normalize(entry: string): string {
    Lower(Trim(entry))
  }

  /** `map((e) => e.trim().toLowerCase())`. */
  function NormalizeAll(pieces: seq<string>): (r: seq<string>)
    ensures |r| == |pieces|
    ensures forall i :: 0 <= i < |pieces| ==> r[i] == Normalize(pieces[i])
  {
    seq(|pieces|, i requires 0 <= i < |pieces| => Normalize(pieces[i]))
  }

  function DropEmpty(entries: seq<string>): (r: seq<string>)
    ensures forall x :: x in r <==> x in entries && x != ""
  {
    if entries == [] then []
    else (if entries[0] == "" then [] else [entries[0]]) + DropEmpty(entries[1..])
  }

  /** The allow-list: `split`, then `map(trim, toLowerCase)`, then `filter(Boolean)`. */
  function AdminList(adminEmails: string): seq<string> {
    DropEmpty(NormalizeAll(Split(adminEmails)))
  }

  /** Some piece of the split list normalises to `x`. */
  predicate Listed(pieces: seq<string>, x: string) {
    exists i :: 0 <= i < |pieces| && Normalize(pieces[i]) == x
  }

  /** A non-empty string survives `filter(Boolean)` exactly when some piece normalises to it. */
  lemma NormalizedMember(pieces: seq<string>, x: string)
    requires x != ""
    ensures x in DropEmpty(NormalizeAll(pieces)) <==> Listed(pieces, x)
  {
    var all := NormalizeAll(pieces);
    if x in DropEmpty(all) {
      assert x in all;
      var i :| 0 <= i < |all| && all[i] == x;
      assert Normalize(pieces[i]) == x;
    }
    if exists i :: 0 <= i < |pieces| && Normalize(pieces[i]) == x {
      var i :| 0 <= i < |pieces| && Normalize(pieces[i]) == x;
      assert all[i] == x;
      assert x in all;
    }
  }

  /** `!!email && adminEmails.includes(email.toLowerCase())`, where `adminEmails`
      is the unset-or-empty `ADMIN_EMAILS` as `""`. */
  function IsAdminEmail(adminEmails: string, email: Option<string>): (r: bool)
    ensures r ==> email.Some? && email.value != ""
    ensures r <==> email.Some? && email.value != "" && Listed(Split(adminEmails), Lower(email.value))
  {
    if email.Some? && email.value != "" then
      NormalizedMember(Split(adminEmails), Lower(email.value));
      Lower(email.value) in AdminList(adminEmails)
    else false
  }

  // ----- properties of the split

  lemma {:induction false} ConcatContains(pieces: seq<string>, i: int, k: int)
    requires 0 <= i < |pieces| && 0 <= k < |pieces[i]|
    ensures pieces[i][k] in Concat(pieces)
  {
    if i == 0 {
      assert Concat(pieces) == pieces[0] + Concat(pieces[1..]);
      assert Concat(pieces)[k] == pieces[0][k];
    } else {
      ConcatContains(pieces[1..], i - 1, k);
      assert Concat(pieces) == pieces[0] + Concat(pieces[1..]);
    }
  }

  lemma {:induction false} StripDelimsOfWhite(s: string)
    requires forall k :: 0 <= k < |s| ==> IsDelim(s[k]) || IsWhite(s[k])
    ensures forall k :: 0 <= k < |StripDelims(s)| ==> IsWhite(StripDelims(s)[k])
  {
    if s != [] { StripDelimsOfWhite(s[1..]); }
  }

  /** An `ADMIN_EMAILS` of nothing but separators and whitespace (unset or empty
      included) admits nobody. */
  lemma EmptyListAdmitsNobody(adminEmails: string, email: Option<string>)
    requires forall k :: 0 <= k < |adminEmails| ==> IsDelim(adminEmails[k]) || IsWhite(adminEmails[k])
    ensures !IsAdminEmail(adminEmails, email)
  {
    var pieces := Split(adminEmails);
    SplitSound(adminEmails);
    StripDelimsOfWhite(adminEmails);
    forall i | 0 <= i < |pieces| ensures Normalize(pieces[i]) == "" {
      forall k | 0 <= k < |pieces[i]| ensures IsWhite(pieces[i][k]) {
        ConcatContains(pieces, i, k);
      }
      TrimEmptyIffBlank(pieces[i]);
    }
  }

  /** A delimiter-free string is a single piece. */
  lemma {:induction false} SplitDelimFree(b: string)
    requires DelimFree(b)
    ensures Split(b) == [b]
  {
    if b != [] {
      SplitDelimFree(b[1..]);
      assert [b[0]] + b[1..] == b;
    }
  }

  /** A list that starts with a separator has an empty first piece. */
  lemma SplitDelimHead(s: string)
    requires s != [] && IsDelim(s[0])
    ensures Split(s)[0] == ""
  {
  }

  /** A single separator between a text that does not end with one and a text that
      does not start with one cuts exactly there. Together with `SplitRun` (a run
      of separators cuts like one) and `SplitDelimFree` (a text without separators
      is one piece), this fixes the pieces of every list. */
  lemma {:induction false} SplitJoin(x: string, d: char, y: string)
    requires IsDelim(d)
    requires x == [] || !IsDelim(x[|x| - 1])
    requires y == [] || !IsDelim(y[0])
    ensures Split(x + [d] + y) == Split(x) + Split(y)
  {
    var s := x + [d] + y;
    if x == [] {
      assert s[1..] == y;
    } else {
      assert s[1..] == x[1..] + [d] + y;
      SplitJoin(x[1..], d, y);
      var n := |x| > 1 && IsDelim(x[1]);
      if |x| > 1 { assert s[1] == x[1]; }
      assert Split(s) == Step(x[0], n, Split(x[1..]) + Split(y));
      StepAppend(x[0], n, Split(x[1..]), Split(y));
    }
  }

  /** Two separators in a row cut like one. */
  lemma {:induction false} SplitRun(x: string, d: char, e: char, y: string)
    requires IsDelim(d) && IsDelim(e)
    ensures Split(x + [d, e] + y) == Split(x + [d] + y)
  {
    var s, t := x + [d, e] + y, x + [d] + y;
    if x == [] {
      assert s[1..] == [e] + y;
      assert t[1..] == y && ([e] + y)[1..] == y;
      SplitDelimHead([e] + y);
    } else {
      assert s[1..] == x[1..] + [d, e] + y;
      assert t[1..] == x[1..] + [d] + y;
      SplitRun(x[1..], d, e, y);
      assert s[1] == t[1];
    }
  }

  /** A text without separators, followed by nothing or by a separator, is the first piece. */
  lemma {:induction false} SplitHead(b: string, y: string)
    requires DelimFree(b)
    requires y == [] || IsDelim(y[0])
    ensures Split(b + y)[0] == b
  {
    if b == [] {
      assert b + y == y;
      if y != [] { SplitDelimHead(y); }
    } else {
      assert (b + y)[1..] == b[1..] + y;
      SplitHead(b[1..], y);
      assert [b[0]] + b[1..] == b;
    }
  }

  /** A non-empty text without separators, standing between separators or at either
      end of the list, is one of its pieces (and not the first one when something
      comes before it). */
  lemma {:induction false} SplitPiece(x: string, b: string, y: string)
    requires b != [] && DelimFree(b)
    requires x == [] || IsDelim(x[|x| - 1])
    requires y == [] || IsDelim(y[0])
    ensures b in Split(x + b + y)
    ensures x != [] ==> b in Split(x + b + y)[1..]
  {
    var s := x + b + y;
    if x == [] {
      assert s == b + y;
      SplitHead(b, y);
    } else {
      assert s[1..] == x[1..] + b + y;
      SplitPiece(x[1..], b, y);
      var rest := Split(s[1..]);
      if x[1..] == [] {
        assert s[1..] == b + y;
        SplitHead(b, y);
        assert Split(s) == [""] + rest;
        assert Split(s)[1] == b;
      } else {
        assert b in rest[1..];
        var r := Split(s);
        assert r == rest || r == [""] + rest || r[1..] == rest[1..];
        if r == [""] + rest { assert r[1..] == rest; }
      }
    }
  }

  /** An entry anywhere in the list (alone, first, between separators or last), with
      any surrounding tabs or other non-separator whitespace, admits every email
      equal to it up to ASCII case. */
  lemma PaddedEntryAdmits(x: string, pre: string, entry: string, post: string, y: string, email: string)
    requires x == [] || IsDelim(x[|x| - 1])
    requires y == [] || IsDelim(y[0])
    requires IsBlank(pre) && IsBlank(post) && DelimFree(pre) && DelimFree(post)
    requires entry != [] && DelimFree(entry) && !IsWhite(entry[0]) && !IsWhite(entry[|entry| - 1])
    requires Lower(email) == Lower(entry)
    ensures IsAdminEmail(x + (pre + entry + post) + y, Some(email))
  {
    PaddedPiece(pre, entry, post);
    assert |email| == |entry|;
    PieceAdmits(x, pre + entry + post, y, email);
  }

  /** A piece of the list that normalises to the lower-cased email admits it. */
  lemma PieceAdmits(x: string, b: string, y: string, email: string)
    requires x == [] || IsDelim(x[|x| - 1])
    requires y == [] || IsDelim(y[0])
    requires b != [] && DelimFree(b) && email != [] && Normalize(b) == Lower(email)
    ensures IsAdminEmail(x + b + y, Some(email))
  {
    SplitPiece(x, b, y);
    var pieces := Split(x + b + y);
    var i :| 0 <= i < |pieces| && pieces[i] == b;
    assert Normalize(pieces[i]) == Lower(email);
  }

  /** An entry padded with non-separator whitespace is one piece, normalised to the entry lower-cased. */
  lemma PaddedPiece(pre: string, entry: string, post: string)
    requires IsBlank(pre) && IsBlank(post) && DelimFree(pre) && DelimFree(post)
    requires entry != [] && DelimFree(entry) && !IsWhite(entry[0]) && !IsWhite(entry[|entry| - 1])
    ensures DelimFree(pre + entry + post) && Normalize(pre + entry + post) == Lower(entry)
  {
    var b := pre + entry + post;
    forall k | 0 <= k < |b| ensures !IsDelim(b[k]) {
      if k < |pre| { assert b[k] == pre[k]; }
      else if k < |pre| + |entry| { assert b[k] == entry[k - |pre|]; }
      else { assert b[k] == post[k - |pre| - |entry|]; }
    }
    TrimPadded(pre, entry, post);
  }

  /** The signed-in email itself is not trimmed: one with leading whitespace is never an admin. */
  lemma PaddedEmailRejected(adminEmails: string, email: string)
    requires |email| > 0 && IsWhite(email[0])
    ensures !IsAdminEmail(adminEmails, Some(email))
  {
    var pieces := Split(adminEmails);
    forall i | 0 <= i < |pieces| ensures Normalize(pieces[i]) != Lower(email) {
      var t := Trim(pieces[i]);
      if t != [] {
        LowerKeepsWhite(t[0]);
        LowerKeepsWhite(email[0]);
        assert Normalize(pieces[i])[0] != Lower(email)[0];
      }
    }
  }

  // ----- the list is case-insensitive

  lemma LowerKeepsDelim(c: char)
    ensures IsDelim(LowerChar(c)) <==> IsDelim(c)
  {
  }

  /** Each piece lower-cased. */
  function LowerAll(pieces: seq<string>): (r: seq<string>)
    ensures |r| == |pieces|
    ensures forall i :: 0 <= i < |pieces| ==> r[i] == Lower(pieces[i])
  {
    seq(|pieces|, i requires 0 <= i < |pieces| => Lower(pieces[i]))
  }

  /** A lower-cased character takes the same step over the lower-cased pieces. */
  lemma StepLower(c: char, nextDelim: bool, rest: seq<string>)
    requires |rest| >= 1
    ensures Step(LowerChar(c), nextDelim, LowerAll(rest)) == LowerAll(Step(c, nextDelim, rest))
  {
    LowerKeepsDelim(c);
    var lr := LowerAll(rest);
    assert lr[0] == "" <==> rest[0] == "";
    if !IsDelim(c) {
      assert Lower([c] + rest[0]) == [LowerChar(c)] + lr[0];
      assert LowerAll(Step(c, nextDelim, rest)) == [[LowerChar(c)] + lr[0]] + lr[1..];
    } else if !(rest[0] == "" && nextDelim) {
      assert LowerAll([""] + rest) == [""] + lr;
    }
  }

  /** Lower-casing the list lower-cases each piece and moves no boundary. */
  lemma {:induction false} SplitLower(s: string)
    ensures Split(Lower(s)) == LowerAll(Split(s))
  {
    if s != [] {
      var l := Lower(s);
      assert l[1..] == Lower(s[1..]);
      SplitLower(s[1..]);
      if |s| > 1 { LowerKeepsDelim(s[1]); }
      StepLower(s[0], |s| > 1 && IsDelim(s[1]), Split(s[1..]));
    }
  }

  lemma NormalizeLower(x: string)
    ensures Normalize(Lower(x)) == Normalize(x)
  {
    TrimLower(x);
    LowerIdempotent(Trim(x));
  }

  /** Lower-casing every piece first lists the same normalised entries. */
  lemma ListedLowerAll(pieces: seq<string>, x: string)
    ensures Listed(LowerAll(pieces), x) <==> Listed(pieces, x)
  {
    var q := LowerAll(pieces);
    if Listed(pieces, x) {
      var i :| 0 <= i < |pieces| && Normalize(pieces[i]) == x;
      NormalizeLower(pieces[i]);
      assert Normalize(q[i]) == x;
    }
    if Listed(q, x) {
      var i :| 0 <= i < |q| && Normalize(q[i]) == x;
      NormalizeLower(pieces[i]);
      assert Normalize(pieces[i]) == x;
    }
  }

  /** Writing `ADMIN_EMAILS` in any mix of ASCII case admits the same people. */
  lemma ListCaseInsensitive(adminEmails: string, email: Option<string>)
    ensures IsAdminEmail(Lower(adminEmails), email) == IsAdminEmail(adminEmails, email)
  {
    SplitLower(adminEmails);
    if email.Some? && email.value != "" {
      ListedLowerAll(Split(adminEmails), Lower(email.value));
    }
  }
}
