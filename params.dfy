/**
 * Command-line handling: splitting a URL at '/', the default output file
 * name, and the decision rules of `getParameters`.
 */
module Params {
  import opened Wrappers
  import opened Strings

  /** `strings.Split(s, [sep])`: the pieces between occurrences of `sep`;
      one piece more than there are separators, so `""` gives `[""]`. */
  function Split(s: string, sep: char): (r: seq<string>)
    ensures 1 <= |r|
    decreases |s|
  {
    var k := FirstIndex(s, sep);
    if k == |s| then [s] else [s[..k]] + Split(s[k + 1..], sep)
  }

  /** No piece contains the separator, and there is a single piece exactly
      when the string has no separator. */
  lemma {:induction false} SplitPieces(s: string, sep: char)
    ensures forall k :: 0 <= k < |Split(s, sep)| ==> sep !in Split(s, sep)[k]
    ensures (|Split(s, sep)| == 1) == (sep !in s)
    decreases |s|
  {
    var k := FirstIndex(s, sep);
    if k < |s| {
      SplitPieces(s[k + 1..], sep);
      var r := Split(s, sep);
      assert r[1..] == Split(s[k + 1..], sep);
      assert forall i :: 1 <= i < |r| ==> r[i] == r[1..][i - 1];
    }
  }

  /** `strings.Join(pieces, [sep])`. */
  function Join(pieces: seq<string>, sep: char): string
    requires 1 <= |pieces|
  {
    if |pieces| == 1 then pieces[0] else pieces[0] + [sep] + Join(pieces[1..], sep)
  }

  /** Joining the pieces with the separator gives back the string. */
  lemma {:induction false} SplitJoin(s: string, sep: char)
    ensures Join(Split(s, sep), sep) == s
    decreases |s|
  {
    var k := FirstIndex(s, sep);
    if k < |s| {
      var t := Split(s[k + 1..], sep);
      SplitJoin(s[k + 1..], sep);
      assert Split(s, sep) == [s[..k]] + t;
      JoinCons(s[..k], t, sep);
      Around(s, k);
    }
  }

  lemma JoinCons(p: string, t: seq<string>, sep: char)
    requires 1 <= |t|
    ensures Join([p] + t, sep) == p + [sep] + Join(t, sep)
  {
    assert ([p] + t)[1..] == t;
  }

  lemma Around(s: string, k: nat)
    requires k < |s|
    ensures s[..k] + [s[k]] + s[k + 1..] == s
  {
  }

  /** The first separator after a separator-free prefix ends the first piece. */
  lemma SplitPrefix(a: string, b: string, sep: char)
    requires sep !in a
    ensures Split(a + [sep] + b, sep) == [a] + Split(b, sep)
  {
    var s := a + [sep] + b;
    var k := FirstIndex(s, sep);
    assert s[|a|] == sep;
    assert k == |a|;
    assert s[..k] == a && s[k + 1..] == b;
  }

  /** Splitting pieces that contain no separator after joining them gives
      back the pieces. */
  lemma {:induction false} JoinSplit(pieces: seq<string>, sep: char)
    requires 1 <= |pieces|
    requires forall k :: 0 <= k < |pieces| ==> sep !in pieces[k]
    ensures Split(Join(pieces, sep), sep) == pieces
    decreases |pieces|
  {
    if |pieces| == 1 {
      assert FirstIndex(pieces[0], sep) == |pieces[0]|;
    } else {
      JoinSplit(pieces[1..], sep);
      SplitPrefix(pieces[0], Join(pieces[1..], sep), sep);
      assert [pieces[0]] + pieces[1..] == pieces;
    }
  }

  /** The last of a list of pieces: the pieces are the ones before it,
      then it. */
  function Last(pieces: seq<string>): (r: string)
    requires 1 <= |pieces|
    ensures r == pieces[|pieces| - 1]
  {
    pieces[|pieces| - 1]
  }

  /** `n` is a file name of `s`: it has no '/', it ends `s`, and it is the
      whole of `s` or follows a '/'. */
  predicate NameOf(s: string, n: string) {
    && '/' !in n && |n| <= |s| && s[|s| - |n|..] == n
    && (|n| == |s| || s[|s| - |n| - 1] == '/')
  }

  /** The last piece of a split by '/' is a file name of the string. */
  lemma {:induction false} LastPiece(s: string)
    ensures NameOf(s, Last(Split(s, '/')))
    decreases |s|
  {
    var k := FirstIndex(s, '/');
    if k < |s| {
      LastPiece(s[k + 1..]);
      LastStep(s, k);
    } else {
      WholeLast(s);
    }
  }

  lemma LastStep(s: string, k: nat)
    requires k == FirstIndex(s, '/') < |s|
    requires NameOf(s[k + 1..], Last(Split(s[k + 1..], '/')))
    ensures NameOf(s, Last(Split(s, '/')))
  {
    LastAfterSeparator(s, k);
    NameAfter(s, k, Last(Split(s[k + 1..], '/')));
  }

  /** A file name of the text after a '/' is a file name of the whole. */
  lemma NameAfter(s: string, k: nat, n: string)
    requires k < |s| && s[k] == '/' && NameOf(s[k + 1..], n)
    ensures NameOf(s, n)
  {
    var t := s[k + 1..];
    SuffixOfSuffix(s, k + 1, n);
    assert |n| == |t| ==> s[|s| - |n| - 1] == s[k];
  }

  lemma WholeLast(s: string)
    requires FirstIndex(s, '/') == |s|
    ensures NameOf(s, Last(Split(s, '/')))
  {
    assert Split(s, '/') == [s];
  }

  lemma LastAfterSeparator(s: string, k: nat)
    requires k == FirstIndex(s, '/') < |s|
    ensures Last(Split(s, '/')) == Last(Split(s[k + 1..], '/'))
  {
    SplitCons(s, k);
    LastOfCons(s[..k], Split(s[k + 1..], '/'));
  }

  /** At the first '/', the split is the text before it, then the split of the
      text after it. */
  lemma SplitCons(s: string, k: nat)
    requires k == FirstIndex(s, '/') < |s|
    ensures Split(s, '/') == [s[..k]] + Split(s[k + 1..], '/')
  {
  }

  lemma LastOfCons(p: string, t: seq<string>)
    requires 1 <= |t|
    ensures Last([p] + t) == Last(t)
  {
  }

  /** A suffix of `s[j..]` is one of `s`, and the character before it is the
      same in both, or `s[j - 1]` when it is the whole of `s[j..]`. */
  lemma SuffixOfSuffix(s: string, j: nat, n: string)
    requires 1 <= j <= |s| && |n| <= |s| - j && s[j..][|s| - j - |n|..] == n
    ensures s[|s| - |n|..] == n
    ensures |n| < |s| - j ==> s[|s| - |n| - 1] == s[j..][|s| - j - |n| - 1]
    ensures |n| == |s| - j ==> s[|s| - |n| - 1] == s[j - 1]
  {
    assert s[|s| - |n|..] == s[j..][|s| - j - |n|..];
  }

  /** `getFileName`: the last '/'-separated component of `url`. It has no
      '/', it ends `url`, and it is the whole of `url` or follows a '/'. */
  function GetFileName(url: string): (name: string)
    ensures '/' !in name
    ensures |name| <= |url| && url[|url| - |name|..] == name
    ensures |name| == |url| || url[|url| - |name| - 1] == '/'
  {
    LastPiece(url);
    Last(Split(url, '/'))
  }

  /** Only one suffix qualifies: the file name is exactly the text after the
      last '/'. */
  lemma FileNameUnique(url: string, t: string)
    requires '/' !in t
    requires |t| <= |url| && url[|url| - |t|..] == t
    requires |t| == |url| || url[|url| - |t| - 1] == '/'
    ensures t == GetFileName(url)
  {
    var n := GetFileName(url);
    assert |t| == |n|;
  }

  /** A URL with no '/' is its own file name. */
  lemma FileNameWithoutSlash(url: string)
    requires '/' !in url
    ensures GetFileName(url) == url
  {
    FileNameUnique(url, url);
  }

  /** A URL ending in '/' gives the empty file name. */
  lemma FileNameTrailingSlash(url: string)
    requires 1 <= |url| && url[|url| - 1] == '/'
    ensures GetFileName(url) == []
  {
    var n := GetFileName(url);
    assert n == [];
  }

  datatype Parameters = Parameters(url: string, parts: int, filename: string)

  datatype ParameterError = MissingUrlOrParts | PartsNotANumber | PartsNotPositive

  /**
   * The decision rules of `getParameters`. `args` is the argument vector with
   * the program name first; `atoi` stands for `strconv.Atoi`, `None` being
   * its error. An error is where the program prints a message and exits.
   */
  function GetParameters(args: seq<string>, atoi: string -> Option<int>): (r: Result<Parameters, ParameterError>)
    ensures r == Err(MissingUrlOrParts) <==> |args| < 3
    ensures r == Err(PartsNotANumber) <==> 3 <= |args| && atoi(args[2]).None?
    ensures r == Err(PartsNotPositive) <==> 3 <= |args| && atoi(args[2]).Some? && atoi(args[2]).value <= 0
    ensures r.Ok? ==> 3 <= |args| && r.value.url == args[1] && Some(r.value.parts) == atoi(args[2])
    ensures r.Ok? ==> 1 <= r.value.parts
    ensures r.Ok? ==> r.value.filename == if 4 <= |args| then args[3] else GetFileName(args[1])
  {
    if |args| < 3 then Err(MissingUrlOrParts)
    else
      match atoi(args[2])
      case None => Err(PartsNotANumber)
      case Some(parts) =>
        if parts <= 0 then Err(PartsNotPositive)
        else
          var filename := if 4 <= |args| then args[3] else GetFileName(args[1]);
          Ok(Parameters(args[1], parts, filename))
  }

  /** Without a third argument the file is saved under a name with no '/'
      that ends the URL. */
  lemma DefaultFileName(args: seq<string>, atoi: string -> Option<int>)
    requires |args| == 3 && GetParameters(args, atoi).Ok?
    ensures var p := GetParameters(args, atoi).value;
      '/' !in p.filename && p.url[|p.url| - |p.filename|..] == p.filename
  {
  }
}
