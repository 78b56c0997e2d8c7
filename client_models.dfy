/**
 * The client's display helpers: expression-bodied properties of the UI
 * models. A C# string that may be null is an `Option<string>`.
 */
module ClientModels {
  import opened Domain

  /** The fields of a UserModel the helpers read. */
  datatype UserModel = UserModel(id: Option<string>, userName: Option<string>, email: Option<string>)

  /** The fields of a ChatModel the helpers read. */
  datatype ChatModel = ChatModel(name: Option<string>, isGroup: bool, members: seq<UserModel>,
                                 currentUserId: Option<string>)

  /** `string.IsNullOrEmpty`. */
  predicate IsNullOrEmpty(s: Option<string>) {
    s.None? || s.value == ""
  }

  /** UserModel.DisplayName: the user name unless it is null or empty, else the email. */
  function UserDisplayName(u: UserModel): (r: Option<string>)
    ensures !IsNullOrEmpty(u.userName) ==> r == u.userName
    ensures IsNullOrEmpty(u.userName) ==> r == u.email
  {
    if IsNullOrEmpty(u.userName) then u.email else u.userName
  }

  /** `members.FirstOrDefault(m => m.Id != me)`, comparing possibly-null ids. */
  function FirstNotMe(members: seq<UserModel>, me: Option<string>): (r: Option<UserModel>)
    ensures r.None? <==> forall i | 0 <= i < |members| :: members[i].id == me
    ensures r.Some? ==> exists i | 0 <= i < |members| ::
      (members[i] == r.value && r.value.id != me && forall j | 0 <= j < i :: members[j].id == me)
  {
    if members == [] then None
    else if members[0].id != me then
      Some(members[0])
    else
      var r := FirstNotMe(members[1..], me);
      if r.Some? then
        var i :| 0 <= i < |members[1..]| &&
          (members[1..][i] == r.value && r.value.id != me && forall j | 0 <= j < i :: members[1..][j].id == me);
        assert members[i + 1] == r.value;
        assert forall j | 0 <= j < i + 1 :: members[j].id == me by {
          forall j | 0 <= j < i + 1 ensures members[j].id == me {
            if j > 0 { assert members[j] == members[1..][j - 1]; }
          }
        }
        r
      else
        assert forall i | 0 <= i < |members| :: members[i].id == me by {
          forall i | 0 <= i < |members| ensures members[i].id == me {
            if i > 0 { assert members[i] == members[1..][i - 1]; }
          }
        }
        r
  }

  /**
   * ChatModel.DisplayName: a group shows its name; a direct chat shows the
   * display name of the first member that is not the current user, falling
   * back to the chat's name when there is none or it is null.
   */
  function ChatDisplayName(c: ChatModel): (r: Option<string>)
    ensures c.isGroup ==> r == c.name
    ensures !c.isGroup && (forall i | 0 <= i < |c.members| :: c.members[i].id == c.currentUserId) ==> r == c.name
    ensures !c.isGroup && FirstNotMe(c.members, c.currentUserId).Some? ==>
      var other := FirstNotMe(c.members, c.currentUserId).value;
      r == if UserDisplayName(other).Some? then UserDisplayName(other) else c.name
  {
    if c.isGroup then c.name
    else
      match FirstNotMe(c.members, c.currentUserId)
      case None => c.name
      case Some(other) => if UserDisplayName(other).Some? then UserDisplayName(other) else c.name
  }

  /**
   * A direct chat lists the current user and one other person: it is shown
   * under that person's user name when set, whichever order the list is in.
   */
  lemma {:induction false} DirectChatShowsOther(c: ChatModel, me: UserModel, other: UserModel)
    requires !c.isGroup && (c.members == [me, other] || c.members == [other, me])
    requires me.id == c.currentUserId && other.id != c.currentUserId
    requires !IsNullOrEmpty(other.userName)
    ensures ChatDisplayName(c) == other.userName
  {
    if c.members == [me, other] {
      assert c.members[1..] == [other];
      assert FirstNotMe(c.members[1..], c.currentUserId) == Some(other);
    }
    assert FirstNotMe(c.members, c.currentUserId) == Some(other);
  }

  /** AttachmentModel.IsImage: the content type starts with "image/". */
  predicate IsImage(contentType: string) {
    "image/" <= contentType
  }

  /**
   * The test is a case-sensitive prefix match: a PNG counts, a content type
   * spelled with a capital I or one that merely contains "image/" does not.
   */
  lemma IsImageExamples()
    ensures IsImage("image/png") && IsImage("image/")
    ensures !IsImage("Image/png") && !IsImage("application/image/x") && !IsImage("image")
  {
    assert "image/" <= "image/png";
    assert "application/image/x"[0] != "image/"[0];
    assert "Image/png"[0] != "image/"[0];
  }

  /** The decimal digit for 0..9. */
  function Digit(d: nat): (c: char)
    requires d < 10
    ensures '0' <= c <= '9'
  {
    "0123456789"[d]
  }

  /** The value of a decimal digit character. */
  function DigitValue(c: char): (d: nat)
    requires '0' <= c <= '9'
    ensures d < 10
  {
    (c as int - '0' as int) as nat
  }

  /** The decimal text of a natural number, without leading zeros. */
  function NatToString(n: nat): (s: string)
    ensures |s| >= 1
    ensures forall i | 0 <= i < |s| :: '0' <= s[i] <= '9'
    ensures |s| > 1 ==> s[0] != '0'
  {
    if n < 10 then [Digit(n)] else NatToString(n / 10) + [Digit(n % 10)]
  }

  /** The number a string of decimal digits denotes. */
  function ParseNat(s: string): (n: nat)
    requires forall i | 0 <= i < |s| :: '0' <= s[i] <= '9'
  {
    if s == [] then 0 else 10 * ParseNat(s[..|s| - 1]) + DigitValue(s[|s| - 1])
  }

  /** Reading the decimal text of a number back gives the number. */
  lemma {:induction false} NatStringRoundTrip(n: nat)
    ensures ParseNat(NatToString(n)) == n
  {
    var s := NatToString(n);
    if n < 10 {
      assert DigitValue(Digit(n)) == n;
    } else {
      NatStringRoundTrip(n / 10);
      assert s[..|s| - 1] == NatToString(n / 10);
      assert DigitValue(Digit(n % 10)) == n % 10;
    }
  }

  /** `$"{n}"` for a long: a minus sign before the digits of a negative number. */
  function IntToString(n: int): (s: string)
    ensures n >= 0 ==> s == NatToString(n)
    ensures n < 0 ==> s == "-" + NatToString(-n)
  {
    if n >= 0 then NatToString(n) else "-" + NatToString(-n)
  }

  /** The parse of IntToString's format. */
  function ParseInt(s: string): (n: int)
    requires |s| >= 1
    requires s[0] == '-' ==> forall i | 1 <= i < |s| :: '0' <= s[i] <= '9'
    requires s[0] != '-' ==> forall i | 0 <= i < |s| :: '0' <= s[i] <= '9'
  {
    if s[0] == '-' then -(ParseNat(s[1..]) as int) else ParseNat(s)
  }

  lemma {:induction false} IntStringRoundTrip(n: int)
    ensures ParseInt(IntToString(n)) == n
  {
    if n >= 0 {
      NatStringRoundTrip(n);
    } else {
      NatStringRoundTrip(-n);
      assert IntToString(n)[1..] == NatToString(-n);
    }
  }

  const KiB: int := 1024
  const MiB: int := 1024 * 1024

  /** The unit FormattedSize picks for a size, and the number shown with it. */
  function SizeUnit(fileSize: int): (u: (int, string))
    ensures fileSize < KiB ==> u == (fileSize, " B")
    ensures KiB <= fileSize < MiB ==> u == (fileSize / KiB, " KB")
    ensures MiB <= fileSize ==> u == (fileSize / MiB, " MB")
  {
    if fileSize < KiB then (fileSize, " B")
    else if fileSize < MiB then (fileSize / KiB, " KB")
    else (fileSize / MiB, " MB")
  }

  /** AttachmentModel.FormattedSize. */
  function FormattedSize(fileSize: int): (s: string)
  {
    IntToString(SizeUnit(fileSize).0) + SizeUnit(fileSize).1
  }

  /** Integer division rounds down: the quotient's multiples bracket the dividend. */
  lemma DivBracket(n: int, d: int)
    requires d > 0
    ensures (n / d) * d <= n < (n / d + 1) * d
  {
    assert n == (n / d) * d + n % d;
  }

  /** FormattedSize shows the size itself below one KiB. */
  lemma FormattedBytes(fileSize: int)
    requires fileSize < KiB
    ensures FormattedSize(fileSize) == IntToString(fileSize) + " B"
  {
  }

  /** Between one KiB and one MiB, FormattedSize shows 1..1023 whole KiB. */
  lemma FormattedKilobytes(fileSize: int)
    requires KiB <= fileSize < MiB
    ensures var shown := fileSize / KiB;
      && FormattedSize(fileSize) == IntToString(shown) + " KB"
      && shown * KiB <= fileSize < (shown + 1) * KiB
      && 1 <= shown < 1024
  {
    DivBracket(fileSize, KiB);
  }

  /** From one MiB up, FormattedSize shows at least one whole MiB. */
  lemma FormattedMegabytes(fileSize: int)
    requires MiB <= fileSize
    ensures var shown := fileSize / MiB;
      && FormattedSize(fileSize) == IntToString(shown) + " MB"
      && shown * MiB <= fileSize < (shown + 1) * MiB
      && shown >= 1
  {
    DivBracket(fileSize, MiB);
  }

  /** The number FormattedSize shows reads back as the size in the chosen unit. */
  lemma FormattedSizeReadsBack(fileSize: int)
    ensures var (shown, unit) := SizeUnit(fileSize);
      && FormattedSize(fileSize) == IntToString(shown) + unit
      && ParseInt(IntToString(shown)) == shown
  {
    IntStringRoundTrip(SizeUnit(fileSize).0);
  }

  /** AuthResponse.IsSuccess: the token is neither null nor empty. */
  predicate AuthIsSuccess(token: Option<string>) {
    !IsNullOrEmpty(token)
  }

  /**
   * No token and an empty token are failures; any non-empty token, even one
   * of blanks only, is a success.
   */
  lemma AuthIsSuccessExamples()
    ensures !AuthIsSuccess(None) && !AuthIsSuccess(Some(""))
    ensures AuthIsSuccess(Some(" ")) && AuthIsSuccess(Some("eyJ"))
  {
  }
}
