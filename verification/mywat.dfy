/** `format_path` from mywat2: the path, as text, with every carriage
    return, line feed and tab removed by three successive `replace` calls. */
module PathFormat {

  /** `s.replace(c, "")` for a one-character pattern. */
  function RemoveAll(s: string, c: char): (r: string)
    ensures c !in r
    ensures forall x :: x in r ==> x in s
    ensures c !in s ==> r == s
    ensures |r| <= |s|
    ensures |s| == 1 ==> r == (if s[0] == c then [] else s)
  {
    if |s| == 0 then []
    else if s[0] == c then RemoveAll(s[1..], c)
    else [s[0]] + RemoveAll(s[1..], c)
  }

  /** Removal works piece by piece, in order: removing from a concatenation
      is concatenating the pieces with the character removed. Together with
      the one-character case this pins `RemoveAll` down completely. */
  lemma {:induction false} RemoveAllDistributes(a: string, b: string, c: char)
    ensures RemoveAll(a + b, c) == RemoveAll(a, c) + RemoveAll(b, c)
    decreases |a|
  {
    if |a| == 0 {
      assert a + b == b;
    } else {
      assert (a + b)[0] == a[0];
      assert (a + b)[1..] == a[1..] + b;
      RemoveAllDistributes(a[1..], b, c);
    }
  }

  predicate IsStripped(c: char) {
    c == '\r' || c == '\n' || c == '\t'
  }

  /** `format_path`. */
  function FormatPath(s: string): (r: string)
    ensures '\r' !in r && '\n' !in r && '\t' !in r
  {
    var s1 := RemoveAll(s, '\r');
    var s2 := RemoveAll(s1, '\n');
    RemoveAll(s2, '\t')
  }

  /** Independent one-pass reference: keep every character that is not one
      of the three, in order. */
  function Keep(s: string): string {
    if |s| == 0 then []
    else if IsStripped(s[0]) then Keep(s[1..])
    else [s[0]] + Keep(s[1..])
  }

  /** The three `replace` passes together are the one-pass filter. */
  lemma {:induction false} FormatPathIsKeep(s: string)
    ensures FormatPath(s) == Keep(s)
    decreases |s|
  {
    if |s| > 0 {
      FormatPathIsKeep(s[1..]);
    }
  }

  /** The filter works character by character, in order: filtering a
      concatenation is concatenating the filtered parts. */
  lemma {:induction false} KeepDistributes(a: string, b: string)
    ensures Keep(a + b) == Keep(a) + Keep(b)
    decreases |a|
  {
    if |a| == 0 {
      assert a + b == b;
    } else {
      assert (a + b)[0] == a[0];
      assert (a + b)[1..] == a[1..] + b;
      KeepDistributes(a[1..], b);
    }
  }

  /** `format_path` keeps every other character, in order: it works piece
      by piece over a concatenation, and a single character survives unless
      it is a carriage return, line feed or tab. */
  lemma FormatPathDistributes(a: string, b: string)
    ensures FormatPath(a + b) == FormatPath(a) + FormatPath(b)
    ensures |a| == 1 ==> FormatPath(a) == (if IsStripped(a[0]) then [] else a)
  {
    FormatPathIsKeep(a + b);
    FormatPathIsKeep(a);
    FormatPathIsKeep(b);
    KeepDistributes(a, b);
  }

  /** A path with none of the three characters is returned unchanged. */
  lemma {:induction false} CleanPathUnchanged(s: string)
    requires forall i :: 0 <= i < |s| ==> !IsStripped(s[i])
    ensures FormatPath(s) == s
  {
    FormatPathIsKeep(s);
    KeepIdentity(s);
  }

  /** Characters other than the three are all kept. */
  lemma {:induction false} KeepIdentity(s: string)
    requires forall i :: 0 <= i < |s| ==> !IsStripped(s[i])
    ensures Keep(s) == s
    decreases |s|
  {
    if |s| > 0 {
      KeepIdentity(s[1..]);
    }
  }

  /** `format_path` is idempotent. */
  lemma FormatPathIdempotent(s: string)
    ensures FormatPath(FormatPath(s)) == FormatPath(s)
  {
    var r := FormatPath(s);
    forall i | 0 <= i < |r|
      ensures !IsStripped(r[i])
    {
      assert r[i] in r;
    }
    CleanPathUnchanged(r);
  }
}

/** The command lists of mywat2's `command` module: a `Message` is an
    undoable list of commands, a `TaskBlock` a list of messages. The
    commands themselves are opaque values. */
module Commands {

  datatype Message<C> = Message(commands: seq<C>)

  datatype TaskBlock<C> = TaskBlock(messages: seq<Message<C>>)

  /** `Message::new`. */
  function NewMessage<C>(): (m: Message<C>)
    ensures |m.commands| == 0
  {
    Message([])
  }

  /** `Message::append_cmd`: exactly one command more, at the end. */
  function AppendCmd<C>(m: Message<C>, cmd: C): (r: Message<C>)
    ensures |r.commands| == |m.commands| + 1
    ensures r.commands[..|m.commands|] == m.commands && r.commands[|m.commands|] == cmd
  {
    Message(m.commands + [cmd])
  }

  /** `Message::undo`: `Vec::pop`, dropping the last command if there is one. */
  function Undo<C>(m: Message<C>): (r: Message<C>)
    ensures |m.commands| == 0 ==> r == m
    ensures |m.commands| > 0 ==> |r.commands| == |m.commands| - 1
    ensures r.commands == m.commands[..|r.commands|]
  {
    if |m.commands| == 0 then m else Message(m.commands[..|m.commands| - 1])
  }

  /** `Message::clear`. */
  function Clear<C>(m: Message<C>): (r: Message<C>)
    ensures |r.commands| == 0
  {
    Message([])
  }

  /** `TaskBlock::new`. */
  function NewTaskBlock<C>(): (t: TaskBlock<C>)
    ensures |t.messages| == 0
  {
    TaskBlock([])
  }

  /** `TaskBlock::add_message`: exactly one message more, at the end. */
  function AddMessage<C>(t: TaskBlock<C>, msg: Message<C>): (r: TaskBlock<C>)
    ensures |r.messages| == |t.messages| + 1
    ensures r.messages[..|t.messages|] == t.messages && r.messages[|t.messages|] == msg
  {
    TaskBlock(t.messages + [msg])
  }

  /** `undo` takes back the last `append_cmd`. */
  lemma UndoInvertsAppend<C>(m: Message<C>, cmd: C)
    ensures Undo(AppendCmd(m, cmd)) == m
  {
    assert (m.commands + [cmd])[..|m.commands|] == m.commands;
  }
}
