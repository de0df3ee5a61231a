/**
 * An escaped, separator-terminated field encoding. It stands in for the
 * compact serialisations the token codec and the password hasher produce:
 * what matters to the session code is only that they can be read back.
 */
module Serial {
  import opened Wrappers

  const Sep := ';'
  const Esc := '\\'

  predicate Special(c: char) { c == Sep || c == Esc }

  function Escape(s: string): string
  {
    if s == [] then [] else (if Special(s[0]) then [Esc, s[0]] else [s[0]]) + Escape(s[1..])
  }

  /** A string written as one field: escaped and terminated by `Sep`. */
  function Field(s: string): string
  {
    Escape(s) + [Sep]
  }

  /** Reads one field off the front of `t`, giving its text and what follows it. */
  function ReadField(t: string): (r: Option<(string, string)>)
    ensures r.Some? ==> |r.value.1| < |t|
  {
    if t == [] then None
    else if t[0] == Sep then Some(([], t[1..]))
    else if t[0] == Esc then
      if |t| < 2 then None
      else match ReadField(t[2..])
        case None => None
        case Some(p) => Some(([t[1]] + p.0, p.1))
    else match ReadField(t[1..])
      case None => None
      case Some(p) => Some(([t[0]] + p.0, p.1))
  }

  /** A non-empty field is its first character, escaped, before the field of the rest. */
  lemma FieldCons(s: string)
    requires s != []
    ensures Field(s) == (if Special(s[0]) then [Esc, s[0]] else [s[0]]) + Field(s[1..])
  {
    var head := if Special(s[0]) then [Esc, s[0]] else [s[0]];
    assert Escape(s) == head + Escape(s[1..]);
    assert (head + Escape(s[1..])) + [Sep] == head + (Escape(s[1..]) + [Sep]);
  }

  /** Reading a written field gives back its text and leaves what followed it untouched. */
  lemma {:induction false} ReadWrittenField(s: string, rest: string)
    ensures ReadField(Field(s) + rest) == Some((s, rest))
  {
    if s == [] {
      assert Field(s) + rest == [Sep] + rest;
    } else {
      var tail := Field(s[1..]) + rest;
      ReadWrittenField(s[1..], rest);
      FieldCons(s);
      if Special(s[0]) {
        var t := [Esc, s[0]] + tail;
        assert Field(s) + rest == t;
        assert t[0] == Esc && t[1] == s[0] && t[2..] == tail;
      } else {
        var t := [s[0]] + tail;
        assert Field(s) + rest == t;
        assert t[0] == s[0] && t[1..] == tail;
      }
      assert [s[0]] + s[1..] == s;
    }
  }
}
