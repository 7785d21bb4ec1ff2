/** The administration commands of admin.c and the life of the administrator's password. */
module Admin {
  import opened Common

  const PASS_LEN: nat := 6
  const BUFFER_SIZE: nat := 4096
  const MESSAGE_SIZE: nat := 400
  /** The size of the two arrays that words of a message are copied to, terminator included. */
  const WORD_SIZE: nat := 30
  const NUL: char := 0 as char

  type Text = seq<char>

  // ---------------------------------------------------------------- C strings in the message memory

  /** What a char pointer to the start of m denotes: everything before the first NUL. */
  function CString(m: Text): (t: Text)
    ensures |t| <= |m| && t == m[..|t|] && NUL !in t
    ensures NUL in m ==> |t| < |m| && m[|t|] == NUL
    ensures NUL !in m ==> t == m
  {
    if m == [] || m[0] == NUL then [] else [m[0]] + CString(m[1..])
  }

  /** The characters of t before the first newline. */
  function UntilNewline(t: Text): (r: Text)
    ensures |r| <= |t| && r == t[..|r|] && '\n' !in r
    ensures |r| < |t| ==> t[|r|] == '\n'
  {
    if t == [] || t[0] == '\n' then [] else [t[0]] + UntilNewline(t[1..])
  }

  /** The characters of t before the first space or newline. */
  function Word(t: Text): (r: Text)
    ensures |r| <= |t| && r == t[..|r|] && ' ' !in r && '\n' !in r
    ensures |r| < |t| ==> t[|r|] == ' ' || t[|r|] == '\n'
  {
    if t == [] || t[0] == ' ' || t[0] == '\n' then [] else [t[0]] + Word(t[1..])
  }

  /** The characters of t after its last space; t itself if it has none. */
  function AfterLastSpace(t: Text): (r: Text)
    ensures ' ' !in r && |r| <= |t| && r == t[|t| - |r|..]
    ensures ' ' in t ==> |r| < |t| && t[|t| - |r| - 1] == ' '
    ensures ' ' !in t ==> r == t
  {
    if t == [] || t[|t| - 1] == ' ' then []
    else
      var r := AfterLastSpace(t[..|t| - 1]) + [t[|t| - 1]];
      assert t == t[..|t| - 1] + [t[|t| - 1]];
      r
  }

  /** No character that ends a word, a line or a string. */
  predicate OneWord(t: Text) {
    NUL !in t && ' ' !in t && '\n' !in t
  }

  /** Six characters, none of them a NUL, a space or a newline. */
  predicate GoodPassword(p: Text) {
    |p| == PASS_LEN && OneWord(p)
  }

  /** The message starts with the password and a space. */
  predicate Authorized(m: Text, password: Text) {
    |password| < |m| && m[..|password|] == password && m[|password|] == ' '
  }

  /** The command name, which starts after the password and its space. */
  function CommandWord(m: Text): Text {
    if |m| <= PASS_LEN then [] else Word(CString(m[PASS_LEN + 1..]))
  }

  /** The argument of SET_AUTH: what follows the last space of the whole string, up to a newline. */
  function Argument(m: Text): Text {
    UntilNewline(AfterLastSpace(CString(m)))
  }

  /** Overrun is no reply: the copy of a word ran past its array, and nothing is known from there on. */
  datatype Reply = Unauthorized | Help | BufferSize | Stats | BadArgument | PasswordSet | Unknown | Overrun

  /** An authorized message with a command word, or an argument of SET_AUTH, of thirty characters or more. */
  predicate Overruns(m: Text, password: Text) {
    && Authorized(m, password)
    && (|CommandWord(m)| >= WORD_SIZE || (CommandWord(m) == "SET_AUTH" && |Argument(m)| >= WORD_SIZE))
  }

  /** What a message does: the reply, and the password from then on. */
  function Handle(m: Text, password: Text): (Reply, Text) {
    if Overruns(m, password) then (Overrun, password)
    else if !Authorized(m, password) then (Unauthorized, password)
    else if CommandWord(m) == "HELP" then (Help, password)
    else if CommandWord(m) == "GET_BUFF_SIZE" then (BufferSize, password)
    else if CommandWord(m) == "GET_STATS" then (Stats, password)
    else if CommandWord(m) == "SET_AUTH" then
      if |Argument(m)| == PASS_LEN then (PasswordSet, Argument(m)) else (BadArgument, password)
    else (Unknown, password)
  }

  /** Whatever the message, its argument has no NUL, space or newline. */
  lemma ArgumentIsClean(m: Text)
    ensures OneWord(Argument(m))
  {
    var s := CString(m);
    var t := AfterLastSpace(s);
    var a := UntilNewline(t);
    hide CString, AfterLastSpace, UntilNewline;
    PartsOf(t, |a|);
    PartsOf(s, |s| - |t|);
  }

  lemma PartsOf(t: Text, n: nat)
    requires n <= |t|
    ensures forall c :: c in t[..n] ==> c in t
    ensures forall c :: c in t[n..] ==> c in t
  {}

  /** A good password stays good, and only an authorized SET_AUTH changes it. */
  lemma HandleKeepsPassword(m: Text, password: Text)
    requires GoodPassword(password)
    ensures GoodPassword(Handle(m, password).1)
    ensures Handle(m, password).1 != password ==>
      Authorized(m, password) && CommandWord(m) == "SET_AUTH" && Handle(m, password).0 == PasswordSet
    ensures Handle(m, password).0 == Overrun <==> Overruns(m, password)
  {
    ArgumentIsClean(m);
    hide Argument, CommandWord, Authorized;
  }

  // ---------------------------------------------------------------- the loops over the message

  /** validate_password: 0 or -1.  It never looks past the terminator of the password. */
  method ValidatePassword(m: Text, password: Text) returns (ret: int)
    requires |m| > PASS_LEN && |password| == PASS_LEN + 1 && password[PASS_LEN] == NUL
    requires GoodPassword(password[..PASS_LEN])
    ensures ret == if Authorized(m, password[..PASS_LEN]) then 0 else -1
  {
    var i := 0;
    while m[i] != ' '
      invariant 0 <= i <= PASS_LEN && m[..i] == password[..i]
      decreases PASS_LEN - i
    {
      if password[i] != m[i] || i >= PASS_LEN || m[i] == NUL || m[i] == '\n' {
        assert i < PASS_LEN ==> password[i] != m[i];
        return -1;
      }
      i := i + 1;
    }
    if i != PASS_LEN {
      assert password[..PASS_LEN][i] in password[..PASS_LEN];
      return -1;
    }
    ret := 0;
  }

  lemma {:induction false} WordIs(t: Text, n: nat)
    requires n <= |t| && (forall k :: 0 <= k < n ==> t[k] != ' ' && t[k] != '\n')
    requires n < |t| ==> t[n] == ' ' || t[n] == '\n'
    ensures Word(t) == t[..n]
  {
    if n > 0 {
      WordIs(t[1..], n - 1);
      assert t[..n] == [t[0]] + t[1..][..n - 1];
    }
  }

  lemma {:induction false} UntilNewlineIs(t: Text, n: nat)
    requires n <= |t| && (forall k :: 0 <= k < n ==> t[k] != '\n')
    requires n < |t| ==> t[n] == '\n'
    ensures UntilNewline(t) == t[..n]
  {
    if n > 0 {
      UntilNewlineIs(t[1..], n - 1);
      assert t[..n] == [t[0]] + t[1..][..n - 1];
    }
  }

  /** A scan that has met no NUL is still inside the C string; where it meets one, it is at its end. */
  lemma InsideString(m: Text, i: nat)
    requires NUL in m && i <= |CString(m)|
    ensures i < |m| && (m[i] == NUL <==> i == |CString(m)|) && (i < |CString(m)| ==> m[i] == CString(m)[i])
  {
    if i < |CString(m)| { assert CString(m)[i] == m[i] && CString(m)[i] in CString(m); }
  }

  /** The characters at `offset` are those of s, up to a NUL. */
  ghost predicate StringAt(m: Text, offset: nat, s: Text) {
    && offset + |s| < |m| && m[offset + |s|] == NUL
    && forall j :: 0 <= j < |s| ==> m[offset + j] == s[j] && s[j] != NUL
  }

  lemma TailIsString(m: Text, offset: nat)
    requires offset <= |m| && NUL in m[offset..]
    ensures StringAt(m, offset, CString(m[offset..]))
  {
    var s := CString(m[offset..]);
    forall j | 0 <= j < |s| ensures m[offset + j] == s[j] && s[j] != NUL {
      assert s[j] in s && m[offset..][j] == s[j];
    }
  }

  /** parse_options: copies the word at `offset` and returns its length; None where it runs past the array. */
  method ParseOptions(m: Text, offset: nat, save: array<char>) returns (length: Option<nat>)
    requires offset <= |m| && NUL in m[offset..]
    modifies save
    ensures var word := Word(CString(m[offset..]));
      && (length == None <==> |word| >= save.Length)
      && (length.Some? ==> length.value == |word| && save[..|word| + 1] == word + [NUL])
  {
    TailIsString(m, offset);
    hide CString, StringAt, Word;
    length := CopyWord(m, offset, save, CString(m[offset..]));
  }

  /** The loop of parse_options. */
  method CopyWord(m: Text, offset: nat, save: array<char>, ghost s: Text) returns (length: Option<nat>)
    requires StringAt(m, offset, s)
    modifies save
    ensures length == None <==> |Word(s)| >= save.Length
    ensures length.Some? ==> length.value == |Word(s)| && save[..|Word(s)| + 1] == Word(s) + [NUL]
  {
    hide Word;
    var i, j := offset, 0;
    while m[i] != ' ' && m[i] != NUL && m[i] != '\n'
      invariant i == offset + j && j <= |s| && j <= save.Length
      invariant save[..j] == s[..j]
      invariant forall k :: 0 <= k < j ==> s[k] != ' ' && s[k] != '\n'
      decreases |s| - j
    {
      if j == save.Length {
        WordIsLonger(s, j);
        return None;
      }
      save[j] := m[i];
      i, j := i + 1, j + 1;
    }
    WordIs(s, j);
    if j == save.Length {
      return None;
    }
    save[j] := NUL;
    length := Some(j);
  }

  lemma {:induction false} WordIsLonger(t: Text, n: nat)
    requires n < |t| && forall k :: 0 <= k <= n ==> t[k] != ' ' && t[k] != '\n'
    ensures |Word(t)| > n
  {
    if n > 0 {
      WordIsLonger(t[1..], n - 1);
    }
  }

  lemma {:induction false} LineIsLonger(t: Text, n: nat)
    requires n < |t| && forall k :: 0 <= k <= n ==> t[k] != '\n'
    ensures |UntilNewline(t)| > n
  {
    if n > 0 {
      LineIsLonger(t[1..], n - 1);
    }
  }

  /** strrchr(m, ' ') as an index; its caller takes for granted that it is not NULL. */
  method LastSpace(m: Text) returns (last: int)
    requires NUL in m && ' ' in CString(m)
    ensures last == |CString(m)| - |AfterLastSpace(CString(m))| - 1
  {
    ghost var s := CString(m);
    ghost var t := AfterLastSpace(s);
    last := -1;
    var i := 0;
    InsideString(m, 0);
    while m[i] != NUL
      invariant 0 <= i <= |s| < |m|
      invariant last == -1 ==> forall k :: 0 <= k < i ==> s[k] != ' '
      invariant last >= 0 ==> last < i && s[last] == ' ' && forall k :: last < k < i ==> s[k] != ' '
      invariant last >= -1
      decreases |m| - i
    {
      InsideString(m, i);
      if m[i] == ' ' {
        last := i;
      }
      i := i + 1;
    }
    InsideString(m, i);
    var q := |s| - |t| - 1;
    assert s[q] == ' ';
    forall k | q < k < |s| ensures s[k] != ' ' {
      assert s[k] == t[k - q - 1] && t[k - q - 1] in t;
    }
  }

  /** The copying loop of parse_get_set_arguments; None where it runs past the array. */
  method CopyLine(m: Text, start: nat, fill: array<char>) returns (length: Option<nat>)
    requires NUL in m && start <= |CString(m)|
    modifies fill
    ensures var line := UntilNewline(CString(m)[start..]);
      && (length == None <==> |line| >= fill.Length)
      && (length.Some? ==> length.value == |line| && fill[..|line| + 1] == line + [NUL])
  {
    ghost var s := CString(m);
    ghost var t := s[start..];
    var offset, i := start, 0;
    InsideString(m, offset);
    hide CString, UntilNewline;
    while m[offset] != '\n' && m[offset] != NUL
      invariant offset == start + i && offset <= |s| < |m| && i <= fill.Length
      invariant fill[..i] == t[..i]
      invariant forall k :: 0 <= k < i ==> t[k] != '\n'
      decreases |m| - offset
    {
      InsideString(m, offset);
      assert m[offset] == t[i];
      if i == fill.Length {
        LineIsLonger(t, i);
        return None;
      }
      fill[i] := m[offset];
      offset, i := offset + 1, i + 1;
    }
    InsideString(m, offset);
    UntilNewlineIs(t, i);
    if i == fill.Length {
      return None;
    }
    fill[i] := NUL;
    length := Some(i);
  }

  /**
   * parse_get_set_arguments, for a string with a space: -1 when it is the first character alone, None
   * where the copy runs past the array.
   */
  method ParseArguments(m: Text, fill: array<char>) returns (length: Option<int>)
    requires NUL in m && ' ' in CString(m)
    modifies fill
    ensures if exists k :: 0 < k < |CString(m)| && CString(m)[k] == ' '
            then length == if |Argument(m)| >= fill.Length then None else Some(|Argument(m)|)
            else length == Some(-1)
    ensures length.Some? && length.value >= 0 ==>
      length.value + 1 <= fill.Length && fill[..length.value + 1] == Argument(m) + [NUL]
  {
    ghost var s := CString(m);
    ghost var t := AfterLastSpace(s);
    hide CString, AfterLastSpace, UntilNewline;
    var offset := LastSpace(m);
    if offset <= 0 {
      forall k | 0 < k < |s| ensures s[k] != ' ' {
        assert s[k] == t[k - 1] && t[k - 1] in t;
      }
      return Some(-1);
    }
    assert s[offset] == ' ' && s[offset + 1..] == t;
    var n := CopyLine(m, offset + 1, fill);
    length := match n case None => None case Some(k) => Some(k);
  }

  // ---------------------------------------------------------------- a formatted SET_AUTH message

  const SET_AUTH: Text := "SET_AUTH"
  const SET_AUTH_SIZE: nat := PASS_LEN + 10 + PASS_LEN + 1

  /** password, space, SET_AUTH, space, newPassword, newline. */
  function SetAuthMessage(password: Text, newPassword: Text): (m: Text)
    ensures |m| == |password| + |newPassword| + 11
  {
    password + [' '] + SET_AUTH + [' '] + newPassword + ['\n']
  }

  lemma {:induction false} CStringConcat(h: Text, t: Text)
    requires NUL !in h
    ensures CString(h + t) == h + CString(t)
  {
    if h == [] {
      assert h + t == t;
    } else {
      assert h[0] in h && (h + t)[1..] == h[1..] + t;
      CStringConcat(h[1..], t);
    }
  }

  /** The last space is the one before r. */
  lemma {:induction false} AfterLastSpaceIs(x: Text, r: Text)
    requires ' ' !in r
    ensures AfterLastSpace(x + [' '] + r) == r
  {
    var t := x + [' '] + r;
    if r != [] {
      var r' := r[..|r| - 1];
      assert r == r' + [r[|r| - 1]];
      AfterLastSpaceIs(x, r');
      assert t[..|t| - 1] == x + [' '] + r' && t[|t| - 1] == r[|r| - 1] && r[|r| - 1] in r;
    }
  }

  lemma LaterSpaceWins(h: Text, s: Text)
    requires ' ' in s
    ensures AfterLastSpace(h + s) == AfterLastSpace(s)
  {
    var r := AfterLastSpace(s);
    var q := |s| - |r| - 1;
    CutAt(s, q);
    hide AfterLastSpace;
    Assoc(h, s[..q], [s[q]] + r);
    Assoc(s[..q], [s[q]], r);
    Assoc(h + s[..q], [s[q]], r);
    AfterLastSpaceIs(h + s[..q], r);
  }

  lemma Assoc(a: Text, b: Text, c: Text)
    ensures a + b + c == a + (b + c)
  {}

  lemma CutAt(s: Text, q: nat)
    requires q < |s|
    ensures s == s[..q] + [s[q]] + s[q + 1..]
  {}

  /**
   * The memory holds a formatted SET_AUTH message followed by what earlier messages left there.  The
   * new password is the one in the message when no space remains before the next NUL; otherwise it
   * is taken from the remains.
   */
  lemma SetAuthParsesBack(password: Text, newPassword: Text, tail: Text)
    requires GoodPassword(password) && OneWord(newPassword)
    ensures var m := SetAuthMessage(password, newPassword) + tail;
      && Authorized(m, password) && CommandWord(m) == SET_AUTH
      && Argument(m) == if ' ' in CString(tail) then Argument(tail) else newPassword
  {
    OptionIsSetAuth(password, newPassword, tail);
    ArgumentOfSetAuth(password, newPassword, tail);
  }

  lemma ArgumentOfSetAuth(password: Text, newPassword: Text, tail: Text)
    requires GoodPassword(password) && OneWord(newPassword)
    ensures Argument(SetAuthMessage(password, newPassword) + tail)
         == if ' ' in CString(tail) then Argument(tail) else newPassword
  {
    var head, s := SetAuthMessage(password, newPassword), CString(tail);
    assert NUL !in SET_AUTH && NUL !in head;
    hide CString, AfterLastSpace, UntilNewline, SetAuthMessage, GoodPassword, OneWord;
    CStringConcat(head, tail);
    if ' ' in s {
      LaterSpaceWins(head, s);
    } else {
      LineAfterLastSpace(password, newPassword, s);
      NewlineEndsPassword(newPassword, s);
    }
  }

  lemma LineAfterLastSpace(password: Text, newPassword: Text, s: Text)
    requires OneWord(newPassword) && ' ' !in s
    ensures AfterLastSpace(SetAuthMessage(password, newPassword) + s) == newPassword + ['\n'] + s
  {
    hide AfterLastSpace;
    var x, line := password + [' '] + SET_AUTH, newPassword + ['\n'] + s;
    assert SetAuthMessage(password, newPassword) + s == x + [' '] + line;
    AfterLastSpaceIs(x, line);
  }

  lemma NewlineEndsPassword(newPassword: Text, s: Text)
    requires OneWord(newPassword)
    ensures UntilNewline(newPassword + ['\n'] + s) == newPassword
  {
    hide UntilNewline;
    var line, n := newPassword + ['\n'] + s, |newPassword|;
    forall k | 0 <= k < n ensures line[k] != '\n' {
      assert line[k] == newPassword[k] && newPassword[k] in newPassword;
    }
    UntilNewlineIs(line, n);
    assert line[..n] == newPassword;
  }

  lemma OptionIsSetAuth(password: Text, newPassword: Text, tail: Text)
    requires GoodPassword(password) && OneWord(newPassword)
    ensures var m := SetAuthMessage(password, newPassword) + tail;
      Authorized(m, password) && CommandWord(m) == SET_AUTH
  {
    var rest := newPassword + ['\n'] + tail;
    CommandIs(password, SET_AUTH, ' ', rest);
    assert SetAuthMessage(password, newPassword) + tail == Message(password, SET_AUTH, ' ', rest);
  }

  /** password, space, a command name, what ends the name, and whatever the memory holds behind it. */
  function Message(password: Text, name: Text, end: char, rest: Text): Text {
    password + [' '] + name + [end] + rest
  }

  predicate EndsName(c: char) {
    c == ' ' || c == '\n' || c == NUL
  }

  /** Such a message is authorized, and its command word is the name. */
  lemma CommandIs(password: Text, name: Text, end: char, rest: Text)
    requires GoodPassword(password) && OneWord(name) && EndsName(end)
    ensures var m := Message(password, name, end, rest);
      Authorized(m, password) && CommandWord(m) == name
  {
    hide CString, Word;
    var m := Message(password, name, end, rest);
    var tail := [end] + rest;
    assert m == password + ([' '] + (name + tail));
    assert m[PASS_LEN + 1..] == name + tail;
    CStringConcat(name, tail);
    EndOfName(end, rest);
    NameIsWord(name, CString(tail));
  }

  lemma EndOfName(end: char, rest: Text)
    requires EndsName(end)
    ensures CString([end] + rest) == [] || CString([end] + rest)[0] in {' ', '\n'}
  {}

  lemma NameIsWord(name: Text, t: Text)
    requires OneWord(name) && (t == [] || t[0] in {' ', '\n'})
    ensures Word(name + t) == name
  {
    hide Word;
    var w, n := name + t, |name|;
    forall k | 0 <= k < n ensures w[k] != ' ' && w[k] != '\n' {
      assert w[k] == name[k] && name[k] in name;
    }
    WordIs(w, n);
    assert w[..n] == name;
  }

  /** The replies to the commands that are only asked, and to a word that is none. */
  lemma NamedReplies(password: Text, end: char, rest: Text)
    requires GoodPassword(password) && EndsName(end)
    ensures Handle(Message(password, "HELP", end, rest), password) == (Help, password)
    ensures Handle(Message(password, "GET_BUFF_SIZE", end, rest), password) == (BufferSize, password)
    ensures Handle(Message(password, "GET_STATS", end, rest), password) == (Stats, password)
  {
    CommandIs(password, "HELP", end, rest);
    CommandIs(password, "GET_BUFF_SIZE", end, rest);
    CommandIs(password, "GET_STATS", end, rest);
    hide *;
    Answers(Message(password, "HELP", end, rest), password);
    Answers(Message(password, "GET_BUFF_SIZE", end, rest), password);
    Answers(Message(password, "GET_STATS", end, rest), password);
  }

  lemma Answers(m: Text, password: Text)
    requires Authorized(m, password)
    ensures CommandWord(m) == "HELP" ==> Handle(m, password) == (Help, password)
    ensures CommandWord(m) == "GET_BUFF_SIZE" ==> Handle(m, password) == (BufferSize, password)
    ensures CommandWord(m) == "GET_STATS" ==> Handle(m, password) == (Stats, password)
    ensures CommandWord(m) == "SET_AUTH" && |Argument(m)| < WORD_SIZE && |Argument(m)| != PASS_LEN ==>
      Handle(m, password) == (BadArgument, password)
  {
    hide Authorized, CommandWord, Argument;
  }

  lemma UnknownReply(password: Text, name: Text, end: char, rest: Text)
    requires GoodPassword(password) && OneWord(name) && EndsName(end) && |name| < WORD_SIZE
    requires name !in {"HELP", "GET_BUFF_SIZE", "GET_STATS", "SET_AUTH"}
    ensures Handle(Message(password, name, end, rest), password) == (Unknown, password)
  {
    CommandIs(password, name, end, rest);
    hide Message, Authorized, CommandWord, Argument, GoodPassword, EndsName, OneWord;
  }

  /** What does not start with the password and a space has no effect and is told so, and only that. */
  lemma UnauthorizedReply(m: Text, password: Text)
    requires |password| == PASS_LEN
    ensures Handle(m, password).0 == Unauthorized <==> !(password + [' '] <= m)
    ensures Handle(m, password).0 == Unauthorized ==> Handle(m, password).1 == password
  {
    StartsWithIff(m, password);
    hide Authorized, CommandWord, Argument;
  }

  lemma StartsWithIff(m: Text, password: Text)
    ensures Authorized(m, password) <==> password + [' '] <= m
  {
    var n := |password|;
    if Authorized(m, password) {
      assert m[..n + 1] == m[..n] + [m[n]];
    }
    if password + [' '] <= m {
      assert m[..n] == m[..n + 1][..n] == password;
      assert m[n] == m[..n + 1][n];
    }
  }

  /** On clean memory an argument of another length than six is refused. */
  lemma BadArgumentReply(password: Text, argument: Text)
    requires GoodPassword(password) && OneWord(argument) && |argument| != PASS_LEN && |argument| < WORD_SIZE
    ensures Handle(SetAuthMessage(password, argument) + [NUL], password) == (BadArgument, password)
  {
    assert CString([NUL]) == [];
    SetAuthParsesBack(password, argument, [NUL]);
    assert SET_AUTH == "SET_AUTH";
    hide *;
    Answers(SetAuthMessage(password, argument) + [NUL], password);
  }

  lemma SetAuthHandled(m: Text, password: Text)
    requires Authorized(m, password) && CommandWord(m) == SET_AUTH && |Argument(m)| == PASS_LEN
    ensures Handle(m, password) == (PasswordSet, Argument(m))
  {
    hide Authorized, CommandWord, Argument;
  }

  /** On clean memory a formatted message sets exactly the password in it. */
  lemma CleanRoundTrip(password: Text, newPassword: Text)
    requires GoodPassword(password) && GoodPassword(newPassword)
    ensures Handle(SetAuthMessage(password, newPassword) + [NUL], password) == (PasswordSet, newPassword)
  {
    assert CString([NUL]) == [];
    assert |newPassword| == PASS_LEN;
    SetAuthParsesBack(password, newPassword, [NUL]);
    hide SetAuthMessage, Authorized, CommandWord, Argument, CString, Handle, GoodPassword;
    SetAuthHandled(SetAuthMessage(password, newPassword) + [NUL], password);
  }

  lemma StaleArgument(stale: Text, rest: Text)
    requires GoodPassword(stale) && rest != [] && rest[0] == NUL
    ensures ' ' in CString([' '] + stale + rest) && Argument([' '] + stale + rest) == stale
  {
    hide AfterLastSpace, UntilNewline;
    var t := [' '] + stale;
    assert CString(rest) == [];
    CStringConcat(t, rest);
    hide CString;
    assert CString(t + rest) == t;
    assert t == [] + [' '] + stale;
    AfterLastSpaceIs([], stale);
    UntilNewlineIs(stale, PASS_LEN);
  }

  /** On memory that still holds a longer message, the password is taken from its remains. */
  lemma StaleTailReplacesPassword(password: Text, newPassword: Text, stale: Text, rest: Text)
    requires GoodPassword(password) && GoodPassword(newPassword) && GoodPassword(stale)
    requires rest != [] && rest[0] == NUL
    ensures Handle(SetAuthMessage(password, newPassword) + ([' '] + stale + rest), password) == (PasswordSet, stale)
  {
    assert |stale| == PASS_LEN;
    StaleArgument(stale, rest);
    SetAuthParsesBack(password, newPassword, [' '] + stale + rest);
    hide SetAuthMessage, Authorized, CommandWord, Argument, CString, Handle, GoodPassword;
    SetAuthHandled(SetAuthMessage(password, newPassword) + ([' '] + stale + rest), password);
  }

  // ---------------------------------------------------------------- the administrator

  class Admin {
    /** read_buffer_space; the messages overwrite its beginning and are not cleared. */
    const memory: array<char>
    var length: nat
    const password: array<char>

    ghost predicate Valid()
      reads this, memory, password
    {
      && memory.Length == BUFFER_SIZE && password.Length == PASS_LEN + 1 && memory != password
      && password[PASS_LEN] == NUL && GoodPassword(Password())
      && length <= MESSAGE_SIZE
      && (forall i :: MESSAGE_SIZE <= i < BUFFER_SIZE ==> memory[i] == NUL)
    }

    ghost function Password(): Text
      reads this, password
      requires password.Length == PASS_LEN + 1
    {
      password[..PASS_LEN]
    }

    /** The zeroed structure and the default password of main.c. */
    constructor ()
      ensures Valid() && fresh(memory) && fresh(password)
      ensures Password() == "000000" && length == 0
    {
      memory := new char[BUFFER_SIZE](_ => NUL);
      password := new char[PASS_LEN + 1](i => if i < PASS_LEN then '0' else NUL);
      length := 0;
      new;
      assert Password() == "000000";
    }

    /** set_admin_password. */
    method SetPassword(newPassword: Text)
      requires Valid() && GoodPassword(newPassword)
      modifies password
      ensures Valid() && Password() == newPassword
    {
      forall i | 0 <= i < PASS_LEN {
        password[i] := newPassword[i];
      }
      password[PASS_LEN] := NUL;
      assert Password() == newPassword;
    }

    /** udp_read; recvfrom stores at most 400 bytes. */
    method UdpRead(message: Text)
      requires Valid() && length == 0 && 0 < |message| <= MESSAGE_SIZE
      modifies this, memory
      ensures Valid() && Password() == old(Password()) && length == |message|
      ensures memory[..] == message + old(memory[|message|..])
    {
      forall i | 0 <= i < |message| {
        memory[i] := message[i];
      }
      length := |message|;
      assert memory[..|message|] == message;
    }

    /**
     * udp_write without the socket: the reply, the password it leaves, and the reset of the buffer.
     * Nothing is promised about the state where a copy runs past its array.
     */
    method UdpWrite() returns (reply: Reply)
      requires Valid()
      modifies this, password
      ensures reply == Handle(memory[..], old(Password())).0
      ensures reply != Overrun ==> Valid() && length == 0 && Password() == Handle(memory[..], old(Password())).1
    {
      var m := memory[..];
      assert m[MESSAGE_SIZE] == NUL;
      assert password[..][..PASS_LEN] == Password();
      var valid := ValidatePassword(m, password[..]);
      if valid != 0 {
        reply := Unauthorized;
      } else {
        assert m[PASS_LEN + 1..][MESSAGE_SIZE - PASS_LEN - 1] == NUL;
        var option := new char[WORD_SIZE](_ => NUL);
        var n := ParseOptions(m, PASS_LEN + 1, option);
        if n == None {
          return Overrun;
        }
        CopiedWord(option[..], CommandWord(m));
        reply := Answer(m, CString(option[..]));
        if reply == Overrun {
          return;
        }
      }
      length := 0;
    }

    /** The switch of udp_write. */
    method Answer(m: Text, word: Text) returns (reply: Reply)
      requires Valid() && NUL in m && Authorized(m, Password())
      requires word == CommandWord(m) && |word| < WORD_SIZE
      modifies password
      ensures reply == Handle(m, old(Password())).0
      ensures reply != Overrun ==> Valid() && Password() == Handle(m, old(Password())).1
    {
      hide CString, CommandWord, Argument, Authorized;
      if word == "HELP" {
        reply := Help;
      } else if word == "GET_BUFF_SIZE" {
        reply := BufferSize;
      } else if word == "GET_STATS" {
        reply := Stats;
      } else if word == "SET_AUTH" {
        reply := SetAuth(m);
      } else {
        reply := Unknown;
      }
    }

    /** The case SET_AUTH of udp_write. */
    method SetAuth(m: Text) returns (reply: Reply)
      requires Valid() && NUL in m && Authorized(m, Password())
      modifies password
      ensures reply == if |Argument(m)| >= WORD_SIZE then Overrun
                       else if |Argument(m)| == PASS_LEN then PasswordSet else BadArgument
      ensures Valid() && Password() == if reply == PasswordSet then Argument(m) else old(Password())
    {
      AuthorizedHasSpace(m, Password());
      ArgumentIsClean(m);
      hide Argument, Authorized;
      var parameter := new char[WORD_SIZE](_ => NUL);
      var n := ParseArguments(m, parameter);
      if n == None {
        return Overrun;
      }
      if n.value != PASS_LEN {
        return BadArgument;
      }
      assert parameter[..PASS_LEN + 1][..PASS_LEN] == parameter[..PASS_LEN];
      SetPassword(parameter[..PASS_LEN]);
      reply := PasswordSet;
    }
  }

  /** The string in an array that a word and its terminator were copied to. */
  lemma CopiedWord(a: Text, word: Text)
    requires |word| < |a| && a[..|word| + 1] == word + [NUL] && NUL !in word
    ensures CString(a) == word
  {
    var rest := a[|word| + 1..];
    assert a == a[..|word| + 1] + rest;
    Assoc(word, [NUL], rest);
    CStringConcat(word, [NUL] + rest);
    assert CString([NUL] + rest) == [];
  }

  lemma AuthorizedHasSpace(m: Text, password: Text)
    requires GoodPassword(password) && Authorized(m, password) && NUL in m
    ensures PASS_LEN < |CString(m)| && CString(m)[PASS_LEN] == ' ' && ' ' in CString(m)
  {
    assert m == (password + " ") + m[PASS_LEN + 1..];
    assert NUL !in password + " ";
    CStringConcat(password + " ", m[PASS_LEN + 1..]);
  }

  /** The memory and the password after a sequence of messages; None once a copy ran past its array. */
  function After(memory: Text, password: Text, messages: seq<Text>): Option<(Text, Text)>
    requires forall i :: 0 <= i < |messages| ==> |messages[i]| <= |memory|
    decreases |messages|
  {
    if messages == [] then Some((memory, password))
    else
      var m := messages[0] + memory[|messages[0]|..];
      if Handle(m, password).0 == Overrun then None
      else After(m, Handle(m, password).1, messages[1..])
  }

  lemma {:induction false} GoodPasswordsStayGood(memory: Text, password: Text, messages: seq<Text>)
    requires forall i :: 0 <= i < |messages| ==> |messages[i]| <= |memory|
    requires GoodPassword(password)
    ensures After(memory, password, messages).Some? ==> GoodPassword(After(memory, password, messages).value.1)
    decreases |messages|
  {
    if messages != [] {
      var m := messages[0] + memory[|messages[0]|..];
      HandleKeepsPassword(m, password);
      GoodPasswordsStayGood(m, Handle(m, password).1, messages[1..]);
    }
  }

  /** A string of fewer than thirty characters has no word that runs past an array. */
  lemma ShortStringFits(m: Text, n: nat, password: Text)
    requires PASS_LEN < n < |m| && n < WORD_SIZE && m[n] == NUL && |password| == PASS_LEN
    ensures !Overruns(m, password)
  {
    var rest := m[PASS_LEN + 1..];
    assert rest[n - PASS_LEN - 1] == NUL;
    StringEnds(m, n);
    StringEnds(rest, n - PASS_LEN - 1);
  }

  lemma {:induction false} StringEnds(m: Text, n: nat)
    requires n < |m| && m[n] == NUL
    ensures |CString(m)| <= n
  {
    if n > 0 && m[0] != NUL {
      StringEnds(m[1..], n - 1);
    }
  }

  lemma {:induction false} MemoryPastMessages(memory: Text, password: Text, messages: seq<Text>, n: nat)
    requires n <= |memory| && forall i :: 0 <= i < |messages| ==> |messages[i]| <= n
    requires PASS_LEN < n < WORD_SIZE && n < |memory| && memory[n] == NUL && |password| == PASS_LEN
    ensures After(memory, password, messages).Some?
    ensures |After(memory, password, messages).value.0| == |memory|
    ensures After(memory, password, messages).value.0[n..] == memory[n..]
    decreases |messages|
  {
    if messages != [] {
      var m := messages[0] + memory[|messages[0]|..];
      assert m[n..] == memory[n..];
      assert m[n] == m[n..][0];
      ShortStringFits(m, n, password);
      HandleKeepsLength(m, password);
      hide Handle, Overruns;
      MemoryPastMessages(m, Handle(m, password).1, messages[1..], n);
    }
  }

  lemma HandleKeepsLength(m: Text, password: Text)
    requires |password| == PASS_LEN
    ensures |Handle(m, password).1| == PASS_LEN
    ensures Handle(m, password).0 == Overrun <==> Overruns(m, password)
  {
    hide Overruns, Authorized, CommandWord, Argument;
  }

  /**
   * On a server started on zeroed memory, a SET_AUTH message at least as long as every message before
   * it sets exactly the password it carries, whatever those messages were.
   */
  lemma LongestMessageSetsItsPassword(memory: Text, first: Text, messages: seq<Text>, newPassword: Text)
    requires |memory| == BUFFER_SIZE && forall i :: 0 <= i < |memory| ==> memory[i] == NUL
    requires GoodPassword(first) && GoodPassword(newPassword)
    requires forall i :: 0 <= i < |messages| ==> |messages[i]| <= SET_AUTH_SIZE
    ensures After(memory, first, messages).Some? && |After(memory, first, messages).value.0| == BUFFER_SIZE
    ensures var (held, password) := After(memory, first, messages).value;
      var message := SetAuthMessage(password, newPassword);
      |message| <= BUFFER_SIZE && Handle(message + held[|message|..], password) == (PasswordSet, newPassword)
  {
    var n := SET_AUTH_SIZE;
    MemoryPastMessages(memory, first, messages, n);
    GoodPasswordsStayGood(memory, first, messages);
    var (held, password) := After(memory, first, messages).value;
    assert held[n..] == memory[n..];
    assert held[n..][0] == NUL;
    assert CString(held[n..]) == [];
    assert |SetAuthMessage(password, newPassword)| == n && |newPassword| == PASS_LEN;
    SetAuthParsesBack(password, newPassword, held[n..]);
    hide SetAuthMessage, Authorized, CommandWord, Argument, CString, Handle, GoodPassword, After;
    SetAuthHandled(SetAuthMessage(password, newPassword) + held[n..], password);
  }

  lemma AfterTwo(memory: Text, password: Text, first: Text, second: Text, m1: Text, m2: Text)
    requires |first| <= |memory| && |second| <= |memory|
    requires m1 == first + memory[|first|..] && m2 == second + m1[|second|..]
    requires Handle(m1, password).0 != Overrun && Handle(m2, Handle(m1, password).1).0 != Overrun
    ensures After(memory, password, [first, second]) == Some((m2, Handle(m2, Handle(m1, password).1).1))
  {
    hide Handle;
    var p1 := Handle(m1, password).1;
    assert [second][1..] == [] && [first, second][1..] == [second];
    assert After(m1, p1, [second]) == After(m2, Handle(m2, p1).1, []);
  }

  /**
   * On a server started on zeroed memory, one longer message, which need not be authorized, and then a
   * formatted SET_AUTH message: the password becomes what the longer message left, not what is asked for.
   */
  lemma RemainsReplacePassword(memory: Text, password: Text, newPassword: Text, stale: Text)
    requires |memory| == BUFFER_SIZE && forall i :: 0 <= i < |memory| ==> memory[i] == NUL
    requires GoodPassword(password) && GoodPassword(newPassword) && GoodPassword(stale)
    ensures var longer := seq(SET_AUTH_SIZE, _ => 'x') + [' '] + stale;
      var messages := [longer, SetAuthMessage(password, newPassword)];
      && !Authorized(longer, password)
      && |longer| <= MESSAGE_SIZE
      && After(memory, password, messages).Some? && After(memory, password, messages).value.1 == stale
  {
    var longer := seq(SET_AUTH_SIZE, _ => 'x') + [' '] + stale;
    var message, rest := SetAuthMessage(password, newPassword), memory[|longer|..];
    var m1 := longer + rest;
    var m2 := message + m1[|message|..];
    assert |message| == SET_AUTH_SIZE && |longer| == SET_AUTH_SIZE + 1 + PASS_LEN && longer[PASS_LEN] == 'x';
    assert rest[0] == NUL;
    hide SetAuthMessage, GoodPassword;
    NotAuthorized(longer, rest, password);
    TailOfLonger(seq(SET_AUTH_SIZE, _ => 'x'), [' '] + stale, rest);
    assert longer == seq(SET_AUTH_SIZE, _ => 'x') + ([' '] + stale);
    StaleTailReplacesPassword(password, newPassword, stale, rest);
    hide Handle, Authorized;
    AfterTwo(memory, password, longer, message, m1, m2);
  }

  lemma NotAuthorized(m: Text, rest: Text, password: Text)
    requires |password| == PASS_LEN < |m| && m[PASS_LEN] != ' '
    ensures !Authorized(m, password) && Handle(m + rest, password) == (Unauthorized, password)
  {}

  lemma TailOfLonger(x: Text, y: Text, rest: Text)
    ensures (x + y + rest)[|x|..] == y + rest
  {}

  /**
   * The administrator's loop over any sequence of messages that recvfrom may deliver, up to the first
   * that makes a copy run past its array.
   */
  method Serve(a: Admin, messages: seq<Text>) returns (replies: seq<Reply>)
    requires a.Valid() && a.length == 0
    requires forall i :: 0 <= i < |messages| ==> 0 < |messages[i]| <= MESSAGE_SIZE
    modifies a, a.memory, a.password
    ensures var after := After(old(a.memory[..]), old(a.Password()), messages);
      if after.Some? then
        && a.Valid() && a.length == 0 && |replies| == |messages| && Overrun !in replies
        && after.value == (a.memory[..], a.Password())
      else replies != [] && replies[|replies| - 1] == Overrun
  {
    replies := [];
    for i := 0 to |messages|
      invariant a.Valid() && a.length == 0 && |replies| == i && Overrun !in replies
      invariant After(a.memory[..], a.Password(), messages[i..]) == After(old(a.memory[..]), old(a.Password()), messages)
    {
      assert messages[i..][0] == messages[i] && messages[i..][1..] == messages[i + 1..];
      a.UdpRead(messages[i]);
      var reply := a.UdpWrite();
      replies := replies + [reply];
      if reply == Overrun {
        return;
      }
    }
  }
}
