/**
 * Email addresses as the user model's validation and the host grouping read them: an
 * address is a local part, one '@', and a host, neither part empty.
 */
module Email {
  import opened Results

  /** The position of the first `c` in `s`, or -1. */
  function IndexOf(s: string, c: char): (i: int)
    ensures -1 <= i < |s|
    ensures 0 <= i ==> s[i] == c && forall j :: 0 <= j < i ==> s[j] != c
    ensures i == -1 ==> forall j :: 0 <= j < |s| ==> s[j] != c
  {
    if s == [] then -1
    else if s[0] == c then 0
    else
      var i := IndexOf(s[1..], c);
      if i == -1 then -1 else i + 1
  }

  /** The position of the last `c` in `s`, or -1. */
  function LastIndexOf(s: string, c: char): (i: int)
    ensures -1 <= i < |s|
    ensures 0 <= i ==> s[i] == c && forall j :: i < j < |s| ==> s[j] != c
    ensures i == -1 ==> forall j :: 0 <= j < |s| ==> s[j] != c
    decreases |s|
  {
    if s == [] then -1
    else if s[|s| - 1] == c then |s| - 1
    else LastIndexOf(s[..|s| - 1], c)
  }

  /**
   * The email-address validation rule: the first '@' is also the last one, and it is
   * neither the first nor the last character.
   */
  predicate IsEmailAddress(s: string) {
    var i := IndexOf(s, '@');
    0 < i && i != |s| - 1 && i == LastIndexOf(s, '@')
  }

  /** The rule accepts exactly the strings with one '@', neither first nor last. */
  lemma IsEmailAddressMeansOneAt(s: string)
    ensures IsEmailAddress(s) <==>
      exists i :: 0 < i < |s| - 1 && s[i] == '@' && forall j :: 0 <= j < |s| && j != i ==> s[j] != '@'
  {
    var first, last := IndexOf(s, '@'), LastIndexOf(s, '@');
    if IsEmailAddress(s) {
      assert forall j :: 0 <= j < |s| && j != first ==> s[j] != '@';
    }
    if exists i :: 0 < i < |s| - 1 && s[i] == '@' && forall j :: 0 <= j < |s| && j != i ==> s[j] != '@' {
      var i :| 0 < i < |s| - 1 && s[i] == '@' && forall j :: 0 <= j < |s| && j != i ==> s[j] != '@';
      assert first == i && last == i;
    }
  }

  /** The message thrown when an address cannot be parsed. */
  const FormatMessage: string := "The specified string is not in the form required for an e-mail address."

  /** `new MailAddress(s).Host`: the text after the '@', or the format exception. */
  function Host(s: string): (r: Outcome<string>)
    ensures r.Returned? <==> IsEmailAddress(s)
    ensures r.Threw? ==> r.message == FormatMessage
    ensures r.Returned? ==> r.value != [] && '@' !in r.value && s == s[..IndexOf(s, '@')] + "@" + r.value
  {
    if IsEmailAddress(s) then
      var i := IndexOf(s, '@');
      var host := s[i + 1..];
      assert forall j :: 0 <= j < |host| ==> host[j] == s[i + 1 + j];
      assert s == s[..i] + "@" + host;
      Returned(host)
    else
      Threw(FormatMessage)
  }
}
