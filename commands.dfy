/**
 * Argument parsing of the bot's admin commands and inline-button callbacks:
 * `/add_wallet <name> <address>`, `/set_admin <user_id>`, `/approve <user_id>`
 * and the `approve:<id>`, `reject:<id>`, `delete_wallet:<address>` payloads.
 * Only the decision taken before a reply is sent is modelled; the replies
 * themselves are named by the constructors.
 */
module Commands {
  import opened Wrappers
  import opened Text

  /** Outcome of `/set_admin` and `/approve`, whose checks are identical. */
  datatype IdCommand =
    | Forbidden           // the caller is not an admin
    | BadFormat           // the usage text is sent back
    | Accepted(userId: nat)

  /**
   * The caller must be an admin; then `text.split()` must give exactly two
   * tokens, the second made of digits, which is read with `int()`.
   */
  function UserIdCommand(callerIsAdmin: bool, text: string): (r: IdCommand)
    ensures r == Forbidden <==> !callerIsAdmin
    ensures r.Accepted? <==> callerIsAdmin && |Split(text)| == 2 && IsDigits(Split(text)[1])
    ensures r.Accepted? ==> ParseInt(Split(text)[1]) == Some(r.userId as int)
  {
    if !callerIsAdmin then Forbidden
    else
      var parts := Split(text);
      if |parts| != 2 || !IsDigits(parts[1]) then BadFormat
      else
        ParseIntDigits(parts[1]);
        Accepted(DigitsValue(parts[1]))
  }

  /** An admin's `<command> <id>` is accepted with that very id. */
  lemma UserIdCommandRoundTrip(command: string, id: nat)
    requires IsWord(command)
    ensures UserIdCommand(true, command + " " + DecimalString(id)) == Accepted(id)
  {
    var digits := DecimalString(id);
    assert Unwords([command, digits]) == command + " " + digits;
    SplitUnwords([command, digits]);
    DecimalRoundTrip(id);
  }

  /** Any other number of tokens is refused, whatever they are. */
  lemma UserIdCommandNeedsTwoTokens(words: seq<string>)
    requires forall i :: 0 <= i < |words| ==> IsWord(words[i])
    requires |words| != 2
    ensures UserIdCommand(true, Unwords(words)) == BadFormat
  {
    SplitUnwords(words);
  }

  /** Outcome of `/add_wallet`. */
  datatype AddWalletCommand =
    | NotAllowed          // the caller is not an admin
    | Usage               // fewer than three parts: the usage text and a copy button
    | Add(name: string, address: string)

  /**
   * `text.split(maxsplit=2)`: the name is the second token, the address the
   * whole remainder (which may itself contain whitespace).
   */
  function ParseAddWallet(callerIsAdmin: bool, text: string): (r: AddWalletCommand)
    ensures r == NotAllowed <==> !callerIsAdmin
    ensures r.Add? <==> callerIsAdmin && |Split(text)| >= 3
    ensures r.Add? ==> r.name == Split(text)[1]
    ensures r.Add? ==> r.address != [] && !IsSpace(r.address[0])
    ensures r.Add? ==> Split(r.address) == Split(text)[2..]
    ensures r.Add? ==> |r.address| <= |text| && r.address == text[|text| - |r.address|..]
  {
    if !callerIsAdmin then NotAllowed
    else
      var parts := SplitMax(text, 2);
      SplitMaxAgrees(text, 2);
      if |parts| < 3 then Usage
      else
        SplitMaxLastSuffix(text, 2);
        Add(parts[1], parts[2])
  }

  /** `<command> <name> <address>` yields that name and the address verbatim. */
  lemma AddWalletRoundTrip(command: string, name: string, address: string)
    requires IsWord(command) && IsWord(name)
    requires address != [] && !IsSpace(address[0])
    ensures ParseAddWallet(true, command + " " + name + " " + address) == Add(name, address)
  {
    var rest := name + " " + address;
    assert command + " " + name + " " + address == command + " " + rest;
    SplitMaxWord(command, rest, 2);
    SplitMaxWord(name, address, 1);
    assert SplitMax(address, 0) == [address];
  }

  /**
   * `data.split(":")[1]`: the text between the first colon and the next one
   * (or the end). None stands for the IndexError of a payload without a colon.
   */
  function CallbackArgument(data: string): (arg: Option<string>)
    ensures arg.Some? <==> ':' in data
    ensures arg.Some? ==> ':' !in arg.value
  {
    var fields := SplitOn(data, ':');
    if |fields| < 2 then None else Some(fields[1])
  }

  /** A colon-free argument after a colon-free prefix is recovered whole. */
  lemma CallbackArgumentRoundTrip(prefix: string, arg: string, rest: string)
    requires ':' !in prefix && ':' !in arg
    requires rest == [] || rest[0] == ':'
    ensures CallbackArgument(prefix + ":" + arg + rest) == Some(arg)
  {
    assert prefix + ":" + arg + rest == prefix + [':'] + (arg + rest);
    SplitOnField(prefix, ':', arg + rest);
    if rest == [] {
      assert arg + rest == arg;
      SplitOnNone(arg, ':');
    } else {
      AppendUncons(arg, rest);
      SplitOnField(arg, ':', rest[1..]);
    }
  }

  /** How `int(data.split(":")[1])` ends. */
  datatype CallbackId =
    | NoArgument          // IndexError: the payload has no colon
    | NotAnInteger        // ValueError: the argument is not an integer literal
    | Id(userId: int)

  /** `int(data.split(":")[1])` in the `approve:` and `reject:` callbacks. */
  function CallbackUserId(data: string): (r: CallbackId)
    ensures r == NoArgument <==> ':' !in data
    ensures r.Id? ==> CallbackArgument(data).Some? && ParseInt(CallbackArgument(data).value) == Some(r.userId)
  {
    match CallbackArgument(data)
    case None => NoArgument
    case Some(arg) =>
      match ParseInt(arg)
      case None => NotAnInteger
      case Some(n) => Id(n)
  }

  /** The `approve:<id>` and `reject:<id>` buttons carry the id back intact. */
  lemma CallbackUserIdRoundTrip(prefix: string, id: int)
    requires ':' !in prefix
    ensures CallbackUserId(prefix + ":" + IntString(id)) == Id(id)
  {
    var digits := IntString(id);
    assert forall i :: 0 <= i < |digits| ==> digits[i] != ':';
    CallbackArgumentRoundTrip(prefix, digits, []);
    assert prefix + ":" + digits + [] == prefix + ":" + digits;
    IntRoundTrip(id);
  }

  /** An id after a space, as in `approve: 42`, is still read. */
  lemma CallbackUserIdPadded(prefix: string, id: nat)
    requires ':' !in prefix
    ensures CallbackUserId(prefix + ": " + DecimalString(id)) == Id(id)
  {
    var digits := DecimalString(id);
    var arg := " " + digits;
    assert forall i :: 0 <= i < |arg| ==> arg[i] != ':';
    CallbackArgumentRoundTrip(prefix, arg, []);
    assert prefix + ":" + arg + [] == prefix + ": " + digits;
    ParseIntPadded(" ", digits, []);
    assert " " + digits + [] == arg;
    ParseIntDigits(digits);
    DecimalRoundTrip(id);
  }

  /** An id with a plus sign, as in `approve:+42`, is still read. */
  lemma CallbackUserIdSigned(prefix: string, id: nat)
    requires ':' !in prefix
    ensures CallbackUserId(prefix + ":+" + DecimalString(id)) == Id(id)
  {
    var digits := DecimalString(id);
    var arg := "+" + digits;
    assert forall i :: 0 <= i < |arg| ==> arg[i] != ':';
    CallbackArgumentRoundTrip(prefix, arg, []);
    assert prefix + ":" + arg + [] == prefix + ":+" + digits;
    TrimmedAlready(arg);
    PlusRoundTrip(id);
  }

  /** An argument that is not an integer literal is a ValueError, not a missing argument. */
  lemma CallbackUserIdNotAnInteger(prefix: string, arg: string, i: nat)
    requires ':' !in prefix && ':' !in arg
    requires i < |arg| && !IsDigit(arg[i]) && arg[i] !in "_+-" && !IsIntSpace(arg[i])
    ensures CallbackUserId(prefix + ":" + arg) == NotAnInteger
  {
    CallbackArgumentRoundTrip(prefix, arg, []);
    assert prefix + ":" + arg + [] == prefix + ":" + arg;
    ParseIntRejects(arg, i);
  }

  /** A separator such as U+001C before the id, as in `approve:\x1c42`, is a ValueError. */
  lemma CallbackUserIdKeepsSeparators(prefix: string, id: nat)
    requires ':' !in prefix
    ensures CallbackUserId(prefix + ":" + (['\U{001C}'] + DecimalString(id))) == NotAnInteger
  {
    var arg := ['\U{001C}'] + DecimalString(id);
    assert forall i :: 0 <= i < |arg| ==> arg[i] != ':';
    CallbackUserIdNotAnInteger(prefix, arg, 0);
  }
}
