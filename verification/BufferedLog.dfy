/**
 The logger's buffer: lines gather in it until it is written out with one
 formatted print, which stops at the first zero byte.
 */
module BufferedLog {
  import opened CStrings

  const KB: nat := 1024
  const SIZE: nat := 4 * KB * 9
  const LINE_SIZE: nat := 1024

  /** A line that the scratch buffer holds whole and a formatted print repeats as it is. */
  predicate Plain(line: string) {
    |line| < LINE_SIZE && NulFree(line) && forall i | 0 <= i < |line| :: line[i] != '%'
  }

  class Nana {
    var said: array<char>
    var nowQ: nat
    var shutupTime: int
    const emotion: int
    const breakTime: int

    /** What the file holds. */
    var life: string

    /** The buffer holds text without zeros up to `nowQ`, and zeros behind it. */
    ghost predicate Valid()
      reads this, said
    {
      && said.Length == SIZE && nowQ < SIZE
      && (forall i | 0 <= i < nowQ :: said[i] != '\0' && said[i] != '%')
      && (forall i | nowQ <= i < SIZE :: said[i] == '\0')
    }

    /** Everything said so far, written out or not. */
    ghost function Said(): string
      requires Valid()
      reads this, said
    {
      life + said[..nowQ]
    }

    constructor (emotion: int, breakTime: int)
      ensures Valid() && Said() == "" && nowQ == 0 && fresh(said)
      ensures this.emotion == emotion && this.breakTime == breakTime
    {
      this.emotion, this.breakTime, shutupTime, life, nowQ := emotion, breakTime, 0, "", 0;
      said := new char[SIZE](_ => '\0');
    }

    /** fprintf of the buffer as a format, and memset: what is written is exactly the buffered text. */
    method Flush()
      requires Valid()
      modifies this`life, this`nowQ, said
      ensures Valid() && nowQ == 0 && life == old(Said())
    {
      PrefixIsText(said[..], nowQ);
      life := life + CStr(said[..]);
      nowQ := 0;
      forall i | 0 <= i < said.Length {
        said[i] := '\0';
      }
    }

    /** shutup: nothing said is lost, and less than 8 KB stay in the buffer. */
    method Shutup(now: int)
      requires Valid()
      modifies this`life, this`nowQ, this`shutupTime, said
      ensures Valid() && Said() == old(Said()) && nowQ < 8 * KB
      ensures (nowQ == 0 && life == old(Said())) || (nowQ == old(nowQ) && life == old(life))
      ensures breakTime <= 0 || now - old(shutupTime) >= breakTime || old(nowQ) >= 8 * KB ==> nowQ == 0
      ensures shutupTime == if breakTime <= 0 then old(shutupTime) else now
    {
      if breakTime <= 0 {
        if nowQ > 0 {
          Flush();
        }
      } else {
        if nowQ >= 8 * KB || now - shutupTime >= breakTime {
          Flush();
        }
        shutupTime := now;
      }
    }

    /** memcpy of the line, and a newline behind it. */
    method Append(line: string)
      requires Valid() && Plain(line) && nowQ + |line| + 1 < SIZE
      modifies this`nowQ, said
      ensures Valid() && Said() == old(Said()) + line + "\n" && nowQ == old(nowQ) + |line| + 1
    {
      ghost var before := said[..nowQ];
      forall i | 0 <= i < |line| {
        said[nowQ + i] := line[i];
      }
      said[nowQ + |line|] := '\n';
      nowQ := nowQ + |line| + 1;
      assert said[..nowQ] == before + line + "\n";
    }

    /** say: a line that is not above the logger's level is said once, and no other text is. */
    method Say(emotion: int, line: string, now: int)
      requires Valid() && Plain(line)
      modifies this`life, this`nowQ, this`shutupTime, said
      ensures Valid()
      ensures emotion > this.emotion ==> Said() == old(Said()) && nowQ == old(nowQ)
      ensures emotion <= this.emotion ==> Said() == old(Said()) + line + "\n"
      ensures old(nowQ) < 8 * KB ==> nowQ < 8 * KB
    {
      if emotion <= this.emotion {
        var prevQ := nowQ;
        if nowQ + |line| + 1 < SIZE {
          Append(line);
        }
        Shutup(now);
        if prevQ + |line| + 1 >= SIZE {
          Append(line);
        }
      }
    }
  }

  /** Text without zeros in front of zeros is what C string functions see. */
  lemma PrefixIsText(s: string, n: nat)
    requires n < |s| && s[n] == '\0' && forall i | 0 <= i < n :: s[i] != '\0'
    ensures CStr(s) == s[..n]
  {
    hide CStr;
    assert |CStr(s)| == n;
  }

  /** From a logger's start on the buffer never fills up: a line always fits before the flush. */
  lemma LateAppendNeverNeeded(nowQ: nat, line: string)
    requires nowQ < 8 * KB && Plain(line)
    ensures nowQ + |line| + 1 < SIZE
  {
  }
}
