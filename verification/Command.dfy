/** How execute splits a command line: the loop of kernel/syscall.c:131-148 and strtok of lib/lib.c. */
module Command {
  import opened Bytes
  import CStrings

  const SPACE: Byte := 0x20
  const NEWLINE: Byte := 0x0A
  const MAX_NAME := 32
  const ARG_BUFFER := 64

  const SHELL: seq<Byte> := [0x73, 0x68, 0x65, 0x6C, 0x6C]
  const CLEAR: seq<Byte> := [0x63, 0x6C, 0x65, 0x61, 0x72]

  /** The place of the first space, or the length. */
  function SpaceAt(cmd: seq<Byte>): nat {
    SpaceFrom(cmd, 0)
  }

  function SpaceFrom(cmd: seq<Byte>, i: nat): (n: nat)
    requires i <= |cmd|
    ensures i <= n <= |cmd|
    decreases |cmd| - i
  {
    if i == |cmd| || cmd[i] == SPACE then i else SpaceFrom(cmd, i + 1)
  }

  /** The place where the first word ends: a space, a newline or the end. */
  function WordEnd(cmd: seq<Byte>): nat {
    WordFrom(cmd, 0)
  }

  function WordFrom(cmd: seq<Byte>, i: nat): (n: nat)
    requires i <= |cmd|
    ensures i <= n <= SpaceFrom(cmd, i)
    decreases |cmd| - i
  {
    if i == |cmd| || cmd[i] == SPACE || cmd[i] == NEWLINE then i else WordFrom(cmd, i + 1)
  }

  lemma {:induction false} ScansFindTheFirst(cmd: seq<Byte>, i: nat)
    requires i <= |cmd|
    ensures forall k :: i <= k < SpaceFrom(cmd, i) ==> cmd[k] != SPACE
    ensures SpaceFrom(cmd, i) < |cmd| ==> cmd[SpaceFrom(cmd, i)] == SPACE
    ensures forall k :: i <= k < WordFrom(cmd, i) ==> cmd[k] != SPACE && cmd[k] != NEWLINE
    ensures WordFrom(cmd, i) < |cmd| ==> cmd[WordFrom(cmd, i)] == SPACE || cmd[WordFrom(cmd, i)] == NEWLINE
    decreases |cmd| - i
  {
    if i < |cmd| {
      ScansFindTheFirst(cmd, i + 1);
    }
  }

  /** The command is longer than 32 characters up to its first space: execute gives up. */
  predicate NameTooLong(cmd: seq<Byte>) {
    SpaceAt(cmd) > MAX_NAME
  }

  /** The program name. */
  function Name(cmd: seq<Byte>): seq<Byte> {
    cmd[..WordEnd(cmd)]
  }

  predicate HasArgs(cmd: seq<Byte>) {
    SpaceAt(cmd) < |cmd|
  }

  /** A string with a NUL put at place k: cut there, or as it was when k is not a place in it. */
  function CutAt(chars: seq<Byte>, k: int): seq<Byte> {
    if 0 <= k <= |chars| then chars[..k] else chars
  }

  /** Everything after the first space. For a command without one the source computes the place of the
      terminator from a length it never set: the string left in the argument buffer is cut there. */
  function Args(cmd: seq<Byte>, leftover: seq<Byte>, unsetLen: Byte): seq<Byte> {
    if HasArgs(cmd) then cmd[SpaceAt(cmd) + 1..] else CutAt(leftover, |cmd| - unsetLen - 1)
  }

  /** A NUL stored at a place that may lie outside the buffer. */
  function PutNul(buffer: seq<Byte>, k: int): (r: seq<Byte>)
    ensures |r| == |buffer|
  {
    if 0 <= k < |buffer| then buffer[k := NUL] else buffer
  }

  lemma CutString(buffer: seq<Byte>, k: int)
    requires Terminated(buffer)
    ensures Terminated(PutNul(buffer, k)) && CStr(PutNul(buffer, k)) == CutAt(CStr(buffer), k)
  {
    var chars, r := CStr(buffer), PutNul(buffer, k);
    var n := if 0 <= k <= |chars| then k else |chars|;
    assert r[..n] == chars[..n];
    CStrIs(r, n);
  }

  /** A name, a space and arguments come apart again; a name alone is the whole command, and a newline ends
      the name too. */
  lemma CommandComesApart(name: seq<Byte>, args: seq<Byte>, leftover: seq<Byte>, unsetLen: Byte)
    requires SPACE !in name && NEWLINE !in name
    ensures var cmd := name + [32] + args;
            && Name(cmd) == name && Args(cmd, leftover, unsetLen) == args && (NameTooLong(cmd) <==> |name| > 32)
    ensures Name(name) == name && (NameTooLong(name) <==> |name| > 32)
    ensures Args(name, leftover, unsetLen) == CutAt(leftover, |name| - unsetLen - 1)
    ensures Name(name + [10] + args) == name
  {
    var cmd := name + [32] + args;
    FirstSeparator(cmd, |name|, 0);
    FirstSeparator(name, |name|, 0);
    FirstSeparator(name + [10] + args, |name|, 0);
    assert cmd[..|name|] == name && cmd[|name| + 1..] == args && (name + [10] + args)[..|name|] == name;
  }

  lemma {:induction false} FirstSeparator(cmd: seq<Byte>, n: nat, i: nat)
    requires i <= n <= |cmd| && SPACE !in cmd[..n] && NEWLINE !in cmd[..n]
    ensures n == |cmd| || cmd[n] == SPACE ==> WordFrom(cmd, i) == SpaceFrom(cmd, i) == n
    ensures n < |cmd| && cmd[n] == NEWLINE ==> WordFrom(cmd, i) == n
    decreases n - i
  {
    if i < n {
      assert cmd[i] == cmd[..n][i];
      FirstSeparator(cmd, n, i + 1);
    }
  }

  /** The commands the fixed buffers of execute can take. */
  ghost predicate Fits(cmd: seq<Byte>) {
    cmd != [] ==>
      && cmd[0] != SPACE
      && (!NameTooLong(cmd) ==> WordEnd(cmd) < MAX_NAME && |cmd| <= SpaceAt(cmd) + ARG_BUFFER)
  }

  /** The argument loop of execute over the raw command, and the argument buffer on its stack before
      and after. `unsetLen` is what cmd_len holds before it is set. A terminator whose place is outside
      the buffer goes elsewhere on the kernel stack. */
  method SplitArgs(command: seq<Byte>, stack: seq<Byte>, unsetLen: Byte) returns (ok: bool, tempArg: seq<Byte>)
    requires Terminated(command) && CStr(command) != [] && Fits(CStr(command))
    requires |stack| == ARG_BUFFER && Terminated(stack)
    ensures ok == !NameTooLong(CStr(command))
    ensures ok ==> |tempArg| == ARG_BUFFER && Terminated(tempArg)
    ensures ok ==> CStr(tempArg) == Args(CStr(command), CStr(stack), unsetLen)
  {
    ghost var cmd := CStr(command);
    ghost var tail: seq<Byte> := [];
    var spaceFlag, cmdLen: nat := false, unsetLen;
    tempArg := stack;
    var i := 0;
    while command[i] != NUL
      invariant 0 <= i <= |cmd| && |tempArg| == ARG_BUFFER
      invariant !spaceFlag ==> SpaceAt(cmd) == SpaceFrom(cmd, i) && i <= MAX_NAME && tempArg == stack && cmdLen == unsetLen
      invariant spaceFlag ==> SpaceAt(cmd) == cmdLen <= MAX_NAME && cmdLen < i && tail == cmd[cmdLen + 1..]
      invariant spaceFlag ==> forall k {:trigger tempArg[k]} :: 0 <= k < i - cmdLen - 1 ==> tempArg[k] == tail[k]
      decreases |command| - i
    {
      assert command[i] == cmd[i];
      if command[i] == SPACE && !spaceFlag {
        spaceFlag := true;
        cmdLen := i;
        tail := cmd[i + 1..];
      } else if spaceFlag {
        tempArg := tempArg[i - cmdLen - 1 := command[i]];
      } else {
        if i >= MAX_NAME {
          return false, tempArg;
        }
      }
      i := i + 1;
    }
    var end := i - cmdLen - 1;
    ArgsEnd(cmd, CStr(stack), unsetLen, tempArg, spaceFlag, cmdLen, end);
    tempArg := PutNul(tempArg, end);
    return true, tempArg;
  }

  /** The terminator behind the copied arguments, or wherever the unset length puts it. */
  lemma ArgsEnd(cmd: seq<Byte>, leftover: seq<Byte>, unsetLen: Byte, buffer: seq<Byte>, spaceFlag: bool, cmdLen: nat, end: int)
    requires NUL !in cmd && |buffer| == ARG_BUFFER && spaceFlag == HasArgs(cmd) && end == |cmd| - cmdLen - 1
    requires spaceFlag ==> cmdLen == SpaceAt(cmd) && end < ARG_BUFFER && buffer[..end] == cmd[cmdLen + 1..]
    requires !spaceFlag ==> cmdLen == unsetLen && Terminated(buffer) && CStr(buffer) == leftover
    ensures Terminated(PutNul(buffer, end)) && CStr(PutNul(buffer, end)) == Args(cmd, leftover, unsetLen)
  {
    if spaceFlag {
      assert buffer[end := NUL][..end] == cmd[cmdLen + 1..];
      CStrIs(buffer[end := NUL], end);
    } else {
      CutString(buffer, end);
    }
  }

  lemma PrefixCopied(buffer: seq<Byte>, chars: seq<Byte>, n: nat)
    requires NUL !in chars && n <= |chars| && n < |buffer|
    requires forall k :: 0 <= k < n ==> buffer[k] == chars[k]
    requires buffer[n] == NUL
    ensures Terminated(buffer) && CStr(buffer) == chars[..n]
  {
    assert buffer[..n] == chars[..n];
    CStrIs(buffer, n);
  }

  /** strtok: the first word, in the buffer it returns. */
  method Strtok(input: seq<Byte>, output: array<Byte>)
    requires Terminated(input) && CStr(input) != [] && CStr(input)[0] != SPACE
    requires |Name(CStr(input))| < output.Length
    modifies output
    ensures Terminated(output[..]) && CStr(output[..]) == Name(CStr(input))
  {
    ghost var cmd := CStr(input);
    var len := CStrings.Strlen(input);
    var i := 0;
    while i < len + 1
      invariant 0 <= i <= |cmd| && WordEnd(cmd) == WordFrom(cmd, i)
      invariant forall k :: 0 <= k < i ==> output[k] == cmd[k]
    {
      if input[i] == SPACE || input[i] == NEWLINE || input[i] == NUL {
        break;
      }
      output[i] := input[i];
      i := i + 1;
    }
    output[i] := NUL;
    PrefixCopied(output[..], cmd, i);
  }
}
