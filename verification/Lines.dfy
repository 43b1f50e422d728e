/** Newline-terminated text: NDJSON files and the write-ahead log. */
module Lines {
  /** Every line followed by a newline. */
  function Serialize(lines: seq<string>): string {
    if lines == [] then "" else Serialize(lines[..|lines| - 1]) + lines[|lines| - 1] + "\n"
  }

  lemma {:induction false} SerializeCons(line: string, lines: seq<string>)
    ensures Serialize([line] + lines) == line + "\n" + Serialize(lines)
  {
    if lines == [] {
      assert [line] + lines == [line];
      assert [line][..0] == [];
      assert Serialize([line]) == line + "\n";
    } else {
      var all := [line] + lines;
      assert all[..|all| - 1] == [line] + lines[..|lines| - 1];
      SerializeCons(line, lines[..|lines| - 1]);
    }
  }

  lemma {:induction false} SerializeConcat(a: seq<string>, b: seq<string>)
    ensures Serialize(a + b) == Serialize(a) + Serialize(b)
  {
    if b == [] {
      assert a + b == a;
    } else {
      assert (a + b)[..|a + b| - 1] == a + b[..|b| - 1];
      SerializeConcat(a, b[..|b| - 1]);
    }
  }
}
