/** Which names the checks of internal/journal/schema.go let through, spelled out. */
module SchemaNames {
  import opened Ascii
  import opened Basics
  import opened Schema

  lemma Classes(c: char)
    ensures IdChar(c) <==> c in LOWER + UPPER + DIGITS + "._-"
    ensures NftChar(c) <==> c in LOWER + UPPER + DIGITS + "_-"
    ensures SysctlChar(c) <==> c in LOWER + DIGITS + "_"
  {
    hide Ascii.LOWER, Ascii.UPPER, Ascii.DIGITS;
    InLower(c);
    InUpper(c);
    InDigits(c);
  }

  /** Instance ids, device names and nftables names: which characters, and how many. */
  lemma NamesIff(s: string)
    ensures InstanceIDOk(s) <==> 8 <= |s| <= 128 && AllIn(s, LOWER + UPPER + DIGITS + "._-")
    ensures DevOk(s) <==> 1 <= |s| <= 15 && AllIn(s, LOWER + UPPER + DIGITS + "._-")
    ensures NftNameOk(s) <==> 1 <= |s| <= 64 && AllIn(s, LOWER + UPPER + DIGITS + "_-")
  {
    hide IdChar, NftChar;
    forall c | c in s
      ensures IdChar(c) <==> c in LOWER + UPPER + DIGITS + "._-"
      ensures NftChar(c) <==> c in LOWER + UPPER + DIGITS + "_-"
    {
      Classes(c);
    }
  }

  // ---------------------------------------------------------------- sysctl names

  predicate Word(s: string) { s != "" && AllIn(s, LOWER + DIGITS + "_") }

  /** Words with a dot between each two. */
  function Dotted(words: seq<string>): string
    requires words != []
  {
    if |words| == 1 then words[0] else words[0] + "." + Dotted(words[1..])
  }

  /** A dotted name of one or more words: SysctlNameOk without the demand for a dot. */
  predicate DottedOk(s: string) {
    && s != ""
    && (forall c <- s :: SysctlChar(c) || c == '.')
    && s[0] != '.' && s[|s| - 1] != '.'
    && forall i | 0 <= i < |s| - 1 :: s[i] != '.' || s[i + 1] != '.'
  }

  lemma WordChars(w: string)
    ensures Word(w) <==> w != "" && forall c <- w :: SysctlChar(c)
  {
    hide SysctlChar;
    forall c | c in w ensures SysctlChar(c) <==> c in LOWER + DIGITS + "_" { Classes(c); }
  }

  lemma {:induction false} DottedIsOk(words: seq<string>)
    requires words != [] && forall w <- words :: Word(w)
    ensures DottedOk(Dotted(words)) && ('.' in Dotted(words) <==> |words| >= 2)
  {
    var w := words[0];
    WordChars(w);
    assert !SysctlChar('.');
    hide Word, SysctlChar;
    if |words| > 1 {
      DottedIsOk(words[1..]);
      var rest := Dotted(words[1..]);
      var s := w + "." + rest;
      assert s[|w|] == '.';
      JoinIsOk(w, rest);
    }
  }

  lemma JoinIsOk(w: string, rest: string)
    requires w != "" && (forall c <- w :: SysctlChar(c)) && DottedOk(rest)
    ensures DottedOk(w + "." + rest)
  {
    var s := w + "." + rest;
    forall i | 0 <= i < |s| - 1 ensures s[i] != '.' || s[i + 1] != '.' {
      if i < |w| { assert s[i] == w[i] && w[i] in w; }
      else if i > |w| { assert s[i] == rest[i - |w| - 1] && s[i + 1] == rest[i - |w|]; }
    }
    forall c | c in s ensures SysctlChar(c) || c == '.' {}
    assert s[0] == w[0] && w[0] in w;
    assert s[|s| - 1] == rest[|rest| - 1];
  }

  function FirstDot(s: string): (i: nat)
    requires '.' in s
    ensures i < |s| && s[i] == '.' && '.' !in s[..i]
  {
    if s[0] == '.' then 0 else 1 + FirstDot(s[1..])
  }

  /** The words of a dotted name. */
  lemma {:induction false} WordsOf(s: string) returns (words: seq<string>)
    requires DottedOk(s)
    ensures words != [] && (forall w <- words :: Word(w)) && Dotted(words) == s
    decreases |s|
  {
    if '.' in s {
      var i := FirstDot(s);
      var w, rest := s[..i], s[i + 1..];
      SplitIsOk(s, i);
      WordChars(w);
      var more := WordsOf(rest);
      words := [w] + more;
      assert words[1..] == more;
      assert s == w + "." + rest;
    } else {
      WordChars(s);
      words := [s];
    }
  }

  lemma SplitIsOk(s: string, i: nat)
    requires DottedOk(s) && i < |s| && s[i] == '.' && '.' !in s[..i]
    ensures s[..i] != "" && (forall c <- s[..i] :: SysctlChar(c)) && DottedOk(s[i + 1..])
  {
    var rest := s[i + 1..];
    assert 0 < i < |s| - 1;
    assert rest[0] == s[i + 1] && rest[|rest| - 1] == s[|s| - 1];
    assert forall c <- s[..i] :: c in s && c != '.';
    forall k | 0 <= k < |rest| - 1 ensures rest[k] != '.' || rest[k + 1] != '.' {
      assert rest[k] == s[i + 1 + k] && rest[k + 1] == s[i + 2 + k];
    }
  }

  /** A sysctl name is two or more words of lower-case letters, digits and underscores, dotted. */
  lemma SysctlNameIff(s: string)
    ensures SysctlNameOk(s) <==>
              exists words: seq<string> | |words| >= 2 && (forall w <- words :: Word(w)) :: s == Dotted(words)
  {
    hide Word, SysctlChar;
    if SysctlNameOk(s) {
      var words := WordsOf(s);
      DottedIsOk(words);
    }
    forall words: seq<string> | |words| >= 2 && (forall w <- words :: Word(w)) ensures SysctlNameOk(Dotted(words)) {
      DottedIsOk(words);
    }
  }

  // ---------------------------------------------------------------- whole journals

  predicate Named(s: string, min: nat, max: nat, chars: string) { min <= |s| <= max && AllIn(s, chars) }

  ghost predicate DottedWords(s: string) {
    exists words: seq<string> | |words| >= 2 && (forall w <- words :: Word(w)) :: s == Dotted(words)
  }

  /** Every rule of Validate, record by record. */
  lemma AcceptsIff(j: Journal)
    ensures Validate(j) == None <==>
              && j.schema == 1 && j.role in ["client", "server"]
              && Named(j.instanceID, 8, 128, LOWER + UPPER + DIGITS + "._-")
              && (forall r <- j.routes ::
                    && (r.dst == "default" || '/' in r.dst)
                    && Named(r.dev, 1, 15, LOWER + UPPER + DIGITS + "._-") && r.table != 0)
              && (forall r <- j.rules :: r.family in ["ip", "ip6"] && r.table != 0)
              && (forall t <- j.tables :: t != 0)
              && (forall n <- j.nftables ::
                    n.family in ["inet", "ip", "ip6"] && Named(n.name, 1, 64, LOWER + UPPER + DIGITS + "_-"))
              && (forall s <- j.sysctls :: DottedWords(s.name))
  {
    hide InstanceIDOk, DevOk, NftNameOk, SysctlNameOk, Validate, AllIn, DottedWords;
    ValidateIff(j);
    NamesIff(j.instanceID);
    forall r | r in j.routes ensures DevOk(r.dev) <==> Named(r.dev, 1, 15, LOWER + UPPER + DIGITS + "._-") {
      NamesIff(r.dev);
    }
    forall n | n in j.nftables ensures NftNameOk(n.name) <==> Named(n.name, 1, 64, LOWER + UPPER + DIGITS + "_-") {
      NamesIff(n.name);
    }
    forall s | s in j.sysctls ensures SysctlNameOk(s.name) <==> DottedWords(s.name) { DottedWordsIff(s.name); }
  }

  lemma DottedWordsIff(s: string)
    ensures SysctlNameOk(s) <==> DottedWords(s)
  {
    SysctlNameIff(s);
  }

  // ---------------------------------------------------------------- one record

  /** Of the problems of one record the one reported is the first of: its destination or family, its
    * device or name, its table. */
  lemma ProblemIsFirst(r: Route, u: Rule, t: uint32, n: NFTable, s: Sysctl)
    ensures match RouteProblem(r)
            case None => (r.dst == "default" || '/' in r.dst) && DevOk(r.dev) && r.table != 0
            case Some(p) =>
              && (p == BadDst <==> r.dst != "default" && '/' !in r.dst)
              && (p == BadDev <==> (r.dst == "default" || '/' in r.dst) && !DevOk(r.dev))
              && (p != BadDst && p != BadDev ==> p == ZeroTable && r.table == 0)
    ensures match RuleProblem(u)
            case None => (u.family == "ip" || u.family == "ip6") && u.table != 0
            case Some(p) =>
              && (p == BadFamily <==> u.family != "ip" && u.family != "ip6")
              && (p != BadFamily ==> p == ZeroTable && u.table == 0)
    ensures TableProblem(t) == if t == 0 then Some(ZeroTable) else None
    ensures match NFTableProblem(n)
            case None => n.family in ["inet", "ip", "ip6"] && NftNameOk(n.name)
            case Some(p) =>
              if n.family in ["inet", "ip", "ip6"] then p == BadName && !NftNameOk(n.name) else p == BadFamily
    ensures SysctlProblem(s) == if SysctlNameOk(s.name) then None else Some(BadName)
  {}
}
