/**
 * The camera check-in receives a data URL such as `data:image/jpeg;base64,<payload>`
 * and keeps the second comma-separated field, `image_data.split(",")[1]`.
 */
module DataUrl {
  import opened Wrappers

  /** Python's `s.split(",")`: the maximal comma-free pieces of `s`, in order (never empty). */
  function Split(s: string): (fields: seq<string>)
    ensures |fields| >= 1
    ensures forall i :: 0 <= i < |fields| ==> ',' !in fields[i]
  {
    if s == [] then [""]
    else
      var rest := Split(s[1..]);
      if s[0] == ',' then [""] + rest else [[s[0]] + rest[0]] + rest[1..]
  }

  /** Python's `",".join(fields)`. */
  function Join(fields: seq<string>): string
  {
    if fields == [] then ""
    else if |fields| == 1 then fields[0]
    else fields[0] + "," + Join(fields[1..])
  }

  /** Splitting loses nothing: joining the fields back with commas gives the input. */
  lemma {:induction false} JoinSplit(s: string)
    ensures Join(Split(s)) == s
  {
    if s != [] {
      var rest := Split(s[1..]);
      JoinSplit(s[1..]);
      if s[0] == ',' {
        assert Split(s) == [""] + rest;
        assert ([""] + rest)[1..] == rest;
      } else {
        var fields := Split(s);
        assert fields == [[s[0]] + rest[0]] + rest[1..];
        if |rest| == 1 {
          assert fields == [[s[0]] + rest[0]];
        } else {
          assert fields[1..] == rest[1..];
          assert Join(rest) == rest[0] + "," + Join(rest[1..]);
        }
      }
    }
  }

  /** Joining comma-free fields and splitting again gives the fields back. */
  lemma {:induction false} SplitJoin(fields: seq<string>)
    requires |fields| >= 1
    requires forall i :: 0 <= i < |fields| ==> ',' !in fields[i]
    ensures Split(Join(fields)) == fields
  {
    if |fields| == 1 {
      SplitNoComma(fields[0]);
    } else {
      SplitJoin(fields[1..]);
      SplitAfterField(fields[0], Join(fields[1..]));
      assert [fields[0]] + fields[1..] == fields;
    }
  }

  /** A comma-free string is a single field. */
  lemma {:induction false} SplitNoComma(s: string)
    requires ',' !in s
    ensures Split(s) == [s]
  {
    if s != [] {
      assert ',' !in s[1..] by {
        forall i | 0 <= i < |s[1..]| ensures s[1..][i] != ',' {
          assert s[1..][i] == s[i + 1];
        }
      }
      SplitNoComma(s[1..]);
      assert [s[0]] + s[1..] == s;
    }
  }

  /** A comma-free field followed by a comma starts the split, the rest follows. */
  lemma {:induction false} SplitAfterField(field: string, tail: string)
    requires ',' !in field
    ensures Split(field + "," + tail) == [field] + Split(tail)
  {
    if field == [] {
      assert field + "," + tail == [','] + tail;
      assert ([','] + tail)[1..] == tail;
    } else {
      var s := field + "," + tail;
      assert s[1..] == field[1..] + "," + tail;
      assert ',' !in field[1..] by {
        forall i | 0 <= i < |field[1..]| ensures field[1..][i] != ',' {
          assert field[1..][i] == field[i + 1];
        }
      }
      SplitAfterField(field[1..], tail);
      assert [field[0]] + field[1..] == field;
    }
  }

  /** There is a second field exactly when the input holds a comma. */
  lemma {:induction false} SecondFieldIffComma(s: string)
    ensures |Split(s)| >= 2 <==> ',' in s
  {
    if s != [] {
      SecondFieldIffComma(s[1..]);
      assert ',' in s <==> s[0] == ',' || ',' in s[1..] by {
        assert s == [s[0]] + s[1..];
      }
    }
  }

  /**
   * The image payload of a data URL: the second comma-separated field, or
   * None where Python's `[1]` raises IndexError because there is no comma.
   */
  function Payload(dataUrl: string): (p: Option<string>)
    ensures p.None? <==> ',' !in dataUrl
    ensures p.Some? ==> ',' !in p.value
  {
    SecondFieldIffComma(dataUrl);
    var fields := Split(dataUrl);
    if |fields| < 2 then None else Some(fields[1])
  }

  /**
   * Where it exists, the payload is the text right after the first comma, up to
   * the next comma or the end of the input.
   */
  lemma {:induction false} PayloadAfterFirstComma(dataUrl: string, i: nat)
    requires i < |dataUrl| && dataUrl[i] == ',' && ',' !in dataUrl[..i]
    ensures Payload(dataUrl).Some?
    ensures var p := Payload(dataUrl).value;
            i + 1 + |p| <= |dataUrl| && dataUrl[i + 1..i + 1 + |p|] == p &&
            (i + 1 + |p| == |dataUrl| || dataUrl[i + 1 + |p|] == ',')
  {
    var fields := Split(dataUrl);
    assert ',' in dataUrl;
    SecondFieldIffComma(dataUrl);
    JoinSplit(dataUrl);
    var head, payload := fields[0], fields[1];
    var tail: string;
    if |fields| == 2 {
      tail := "";
      assert Join(fields[1..]) == payload;
    } else {
      tail := "," + Join(fields[2..]);
      assert fields[1..][1..] == fields[2..];
      assert Join(fields[1..]) == payload + tail;
    }
    assert dataUrl == head + "," + payload + tail;
    assert dataUrl[|head|] == ',';
    assert |head| == i;
    assert dataUrl[i + 1..i + 1 + |payload|] == payload;
    if tail != "" {
      assert dataUrl[i + 1 + |payload|] == tail[0] == ',';
    }
  }

  /** A typical camera frame: the payload is the base64 text after the header. */
  lemma JpegDataUrl()
    ensures Payload("data:image/jpeg;base64,/9j/4AAQ") == Some("/9j/4AAQ")
  {
    var header, body := "data:image/jpeg;base64", "/9j/4AAQ";
    assert header + "," + body == "data:image/jpeg;base64,/9j/4AAQ";
    assert ',' !in header;
    assert ',' !in body;
    SplitAfterField(header, body);
    SplitNoComma(body);
  }
}
