/** The literals of the profile and leaderboard handlers of src/services/cg_router.c, by the words they are made of. */
module ReplyWords {
  import opened Bytes
  import opened JsonValue
  import opened Json

  datatype Words = Words(header: seq<byte>, status: seq<byte>, success: seq<byte>, username: seq<byte>,
                         guest: seq<byte>, points: seq<byte>, count: seq<byte>, description: seq<byte>,
                         hashes: seq<byte>, board: seq<byte>, score: seq<byte>)

  predicate Word(s: seq<byte>) {
    Plain(s) && |s| <= 16
  }

  predicate WordsOk(w: Words) {
    |w.header| == 50
    && Word(w.status) && Word(w.success) && Word(w.username) && Word(w.guest) && Word(w.points)
    && Word(w.count) && Word(w.description) && Word(w.hashes) && Word(w.board) && Word(w.score)
  }

  /** What stands before a member, its name and colon, and the opening of its value. */
  function Key(before: byte, name: seq<byte>, opening: seq<byte>): (s: seq<byte>)
    ensures |s| == 4 + |name| + |opening|
  {
    [before, QUOTE] + name + [QUOTE, COLON] + opening
  }

  function StatusKey(w: Words): seq<byte> {
    Key(OPEN_BRACE, w.status, [QUOTE] + w.success + [QUOTE])
  }

  function NameKey(w: Words): seq<byte> {
    StatusKey(w) + Key(COMMA, w.username, [QUOTE])
  }

  function PointsKey(w: Words): seq<byte> {
    Key(COMMA, w.guest, Ascii("false")) + Key(COMMA, w.points, [])
  }

  function CountKey(w: Words): seq<byte> {
    Key(COMMA, w.count, [])
  }

  function DescriptionKey(w: Words): seq<byte> {
    Key(COMMA, w.description, [QUOTE])
  }

  function HashesKey(w: Words): seq<byte> {
    Key(COMMA, w.hashes, [OPEN])
  }

  function BoardKey(w: Words): seq<byte> {
    StatusKey(w) + Key(COMMA, w.board, [OPEN])
  }

  function EntryKey(w: Words): seq<byte> {
    Key(OPEN_BRACE, w.username, [QUOTE])
  }

  function EntryPointsKey(w: Words): seq<byte> {
    Key(COMMA, w.score, [])
  }

  const END: seq<byte> := [CLOSE, CLOSE_BRACE]

  // ----- the literals -----

  /** The words as they stand in the source. */
  function SourceWords(): Words {
    Words(Ascii("Status: 200 OK\r\nContent-Type: application/json\r\n\r\n"), Ascii("status"), Ascii("success"),
          Ascii("username"), Ascii("is_guest"), Ascii("total_points"), Ascii("completed_count"),
          Ascii("description"), Ascii("completed_hashes"), Ascii("leaderboard"), Ascii("points"))
  }

  lemma SourceWordsOk()
    ensures WordsOk(SourceWords())
  {
    ShortWords();
    LongWords();
    CountWord();
    HashesWord();
  }

  lemma ShortWords()
    ensures Word(Ascii("status")) && Word(Ascii("success")) && Word(Ascii("username"))
    ensures Word(Ascii("is_guest")) && Word(Ascii("points"))
  {
  }

  lemma LongWords()
    ensures Word(Ascii("total_points")) && Word(Ascii("description")) && Word(Ascii("leaderboard"))
  {
  }

  lemma CountWord()
    ensures Word(Ascii("completed_count"))
  {
  }

  lemma HashesWord()
    ensures Word(Ascii("completed_hashes"))
  {
  }

  lemma AsciiJoin(s: string, t: string)
    ensures Ascii(s + t) == Ascii(s) + Ascii(t)
  {
  }

  lemma StatusLiteral()
    ensures Key(OPEN_BRACE, Ascii("status"), [QUOTE] + Ascii("success") + [QUOTE]) == Ascii("{\"status\":\"success\"")
  {
  }

  lemma NameLiteral()
    ensures Key(COMMA, Ascii("username"), [QUOTE]) == Ascii(",\"username\":\"")
    ensures Key(OPEN_BRACE, Ascii("username"), [QUOTE]) == Ascii("{\"username\":\"")
  {
  }

  lemma PointsLiteral()
    ensures Key(COMMA, Ascii("is_guest"), Ascii("false")) == Ascii(",\"is_guest\":false")
    ensures Key(COMMA, Ascii("total_points"), []) == Ascii(",\"total_points\":")
  {
  }

  lemma CountLiteral()
    ensures Key(COMMA, Ascii("completed_count"), []) == Ascii(",\"completed_count\":")
  {
  }

  lemma DescriptionLiteral()
    ensures Key(COMMA, Ascii("description"), [QUOTE]) == Ascii(",\"description\":\"")
  {
  }

  lemma HashesLiteral()
    ensures Key(COMMA, Ascii("completed_hashes"), [OPEN]) == Ascii(",\"completed_hashes\":[") && END == Ascii("]}")
  {
  }

  lemma BoardLiteral()
    ensures Key(COMMA, Ascii("leaderboard"), [OPEN]) == Ascii(",\"leaderboard\":[")
    ensures Key(COMMA, Ascii("points"), []) == Ascii(",\"points\":")
  {
  }

  lemma JoinedLiterals()
    ensures Ascii("{\"status\":\"success\"") + Ascii(",\"username\":\"")
         == Ascii("{\"status\":\"success\",\"username\":\"")
  {
    AsciiJoin("{\"status\":\"success\"", ",\"username\":\"");
  }

  lemma JoinedPoints()
    ensures Ascii(",\"is_guest\":false") + Ascii(",\"total_points\":") == Ascii(",\"is_guest\":false,\"total_points\":")
  {
    AsciiJoin(",\"is_guest\":false", ",\"total_points\":");
  }

  lemma JoinedBoard()
    ensures Ascii("{\"status\":\"success\"") + Ascii(",\"leaderboard\":[")
         == Ascii("{\"status\":\"success\",\"leaderboard\":[")
  {
    AsciiJoin("{\"status\":\"success\"", ",\"leaderboard\":[");
  }

  /** Put together, they are the literals that the two handlers append. */
  lemma LiteralsAre()
    ensures var w := SourceWords();
      NameKey(w) == Ascii("{\"status\":\"success\",\"username\":\"")
      && PointsKey(w) == Ascii(",\"is_guest\":false,\"total_points\":")
      && CountKey(w) == Ascii(",\"completed_count\":") && DescriptionKey(w) == Ascii(",\"description\":\"")
      && HashesKey(w) == Ascii(",\"completed_hashes\":[") && END == Ascii("]}")
      && BoardKey(w) == Ascii("{\"status\":\"success\",\"leaderboard\":[")
      && EntryKey(w) == Ascii("{\"username\":\"") && EntryPointsKey(w) == Ascii(",\"points\":")
  {
    StatusLiteral();
    NameLiteral();
    PointsLiteral();
    CountLiteral();
    DescriptionLiteral();
    HashesLiteral();
    BoardLiteral();
    JoinedLiterals();
    JoinedPoints();
    JoinedBoard();
  }

  // ----- the literals as parts of an object -----

  lemma KeyText(before: byte, name: seq<byte>, opening: seq<byte>, rest: seq<byte>)
    requires Plain(name)
    ensures Key(before, name, opening) + rest == [before] + NameText(name, opening + rest)
  {
    PlainKept(name);
    assert [before, QUOTE] + name + [QUOTE, COLON] + opening + rest
        == [before] + ([QUOTE] + (name + [QUOTE] + ([COLON] + (opening + rest))));
  }

  /** A literal behind a comma, its value and what follows are the rest of an object's members. */
  lemma MemberPart(m: Member, opening: seq<byte>, tail: seq<byte>, ms: seq<Member>, rest: seq<byte>)
    requires Plain(m.name) && opening + tail == ValueText(m.val, MembersText(ms, false, rest))
    ensures Key(COMMA, m.name, opening) + tail == MembersText([m] + ms, false, rest)
  {
    KeyText(COMMA, m.name, opening, tail);
    MemberFirst(m, ms, false, rest);
  }

  /** The first member of an object. */
  lemma ObjectPart(m: Member, opening: seq<byte>, tail: seq<byte>, ms: seq<Member>, rest: seq<byte>)
    requires Plain(m.name) && opening + tail == ValueText(m.val, MembersText(ms, false, rest))
    ensures Key(OPEN_BRACE, m.name, opening) + tail == ValueText(Obj([m] + ms), rest)
  {
    KeyText(OPEN_BRACE, m.name, opening, tail);
    MemberFirst(m, ms, true, rest);
    var t := NameText(m.name, opening + tail);
    assert [] + t == t;
  }

  /** Both replies start with the status. */
  lemma StatusPart(w: Words, more: seq<byte>, ms: seq<Member>)
    requires WordsOk(w) && more == MembersText(ms, false, [])
    ensures StatusKey(w) + more == ValueText(Obj([Member(w.status, Str(w.success))] + ms), [])
  {
    PlainKept(w.success);
    var opening := [QUOTE] + w.success + [QUOTE];
    assert opening + more == [QUOTE] + (w.success + [QUOTE] + more);
    ObjectPart(Member(w.status, Str(w.success)), opening, more, ms, []);
  }
}
