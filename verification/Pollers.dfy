/** The two pollers as the source writes them. What a stat, a load and an apply find is passed in;
    each method leaves what the protocol of Reload says a poll leaves. */
module Pollers {
  import opened Reload

  /** What the config watcher compares. The zero stamp stands for a stat that never succeeded. */
  datatype ConfigStamp = ConfigStamp(modTime: int, size: int)

  class Watcher<C(==)> {
    var lastModTime: int
    var lastSize: int
    /** The configuration the last successful onReload applied. */
    var active: C

    function Recorded(): seq<ConfigStamp>
      reads this
    {
      [ConfigStamp(lastModTime, lastSize)]
    }

    /** The caller has already loaded `loaded`; `file` is what the constructor's own stat finds. */
    constructor (loaded: C, file: File<ConfigStamp, C>)
      ensures Recorded() == Boot([loaded], [file], [{}], ConfigStamp(0, 0)).recorded && active == loaded
      ensures Recorded() == [if file.Present? then file.stamp else ConfigStamp(0, 0)]
    {
      active := loaded;
      lastModTime, lastSize := 0, 0;
      if file.Present? {
        lastModTime := file.stamp.modTime;
        lastSize := file.stamp.size;
      }
    }

    /** `valid`: the file read at load time parses, and onReload accepts it. */
    method PollOnce(atStat: File<ConfigStamp, C>, atLoad: File<ConfigStamp, C>, valid: bool)
      modifies this
      ensures (Recorded(), [active]) == Polled(old(Recorded()), [old(active)], [atStat], [atLoad], valid)
      ensures if atStat.Present? && (atStat.stamp.modTime != old(lastModTime) || atStat.stamp.size != old(lastSize))
                 && atLoad.Present? && valid
              then active == atLoad.content && lastModTime == atStat.stamp.modTime && lastSize == atStat.stamp.size
              else unchanged(this)
    {
      assert [atStat][0] in [atStat] && [atLoad][0] in [atLoad];
      if atStat.Missing? {
        return;
      }
      assert Stamps([atStat]) == [atStat.stamp];
      if atStat.stamp.modTime == lastModTime && atStat.stamp.size == lastSize {
        return;
      }
      assert Stamps([atStat])[0] != Recorded()[0];
      if atLoad.Missing? || !valid {
        return;
      }
      active := atLoad.content;
      lastModTime := atStat.stamp.modTime;
      lastSize := atStat.stamp.size;
      assert Contents([atLoad]) == [active];
    }
  }

  /** The certificate reloader watches two files, by modification time alone. */
  class Reloader<C(==)> {
    var cert: seq<C>
    var lastCertModTime: int
    var lastKeyModTime: int

    function Recorded(): seq<int>
      reads this
    {
      [lastCertModTime, lastKeyModTime]
    }

    constructor (loaded: seq<C>, certFile: File<int, C>, keyFile: File<int, C>)
      requires |loaded| == 2
      ensures Recorded() == Boot(loaded, [certFile, keyFile], [{}, {}], 0).recorded && cert == loaded
      ensures Recorded() ==
              [if certFile.Present? then certFile.stamp else 0, if keyFile.Present? then keyFile.stamp else 0]
    {
      cert := loaded;
      lastCertModTime, lastKeyModTime := 0, 0;
      if certFile.Present? {
        lastCertModTime := certFile.stamp;
      }
      if keyFile.Present? {
        lastKeyModTime := keyFile.stamp;
      }
    }

    /** Swaps in the pair read from disk if it is a valid pair; otherwise keeps the old one. */
    method Reload(certFile: File<int, C>, keyFile: File<int, C>, valid: bool) returns (ok: bool)
      modifies this`cert
      ensures ok == (certFile.Present? && keyFile.Present? && valid)
      ensures cert == if ok then [certFile.content, keyFile.content] else old(cert)
    {
      ok := certFile.Present? && keyFile.Present? && valid;
      if ok {
        cert := [certFile.content, keyFile.content];
      }
    }

    method PollOnce(certAtStat: File<int, C>, keyAtStat: File<int, C>,
                    certAtLoad: File<int, C>, keyAtLoad: File<int, C>, valid: bool)
      modifies this
      ensures (Recorded(), cert) ==
              Polled(old(Recorded()), old(cert), [certAtStat, keyAtStat], [certAtLoad, keyAtLoad], valid)
      ensures if certAtStat.Present? && keyAtStat.Present?
                 && (certAtStat.stamp != old(lastCertModTime) || keyAtStat.stamp != old(lastKeyModTime))
                 && certAtLoad.Present? && keyAtLoad.Present? && valid
              then cert == [certAtLoad.content, keyAtLoad.content]
                   && lastCertModTime == certAtStat.stamp && lastKeyModTime == keyAtStat.stamp
              else unchanged(this)
    {
      PairPresent(certAtStat, keyAtStat);
      PairPresent(certAtLoad, keyAtLoad);
      if certAtStat.Missing? {
        return;
      }
      if keyAtStat.Missing? {
        return;
      }
      assert Stamps([certAtStat, keyAtStat]) == [certAtStat.stamp, keyAtStat.stamp];
      if certAtStat.stamp == lastCertModTime && keyAtStat.stamp == lastKeyModTime {
        return;
      }
      assert Stamps([certAtStat, keyAtStat])[0] != Recorded()[0] || Stamps([certAtStat, keyAtStat])[1] != Recorded()[1];
      var ok := Reload(certAtLoad, keyAtLoad, valid);
      if !ok {
        return;
      }
      lastCertModTime := certAtStat.stamp;
      lastKeyModTime := keyAtStat.stamp;
      assert Contents([certAtLoad, keyAtLoad]) == cert;
    }

    lemma PairPresent(a: File<int, C>, b: File<int, C>)
      ensures AllPresent([a, b]) <==> a.Present? && b.Present?
    {
      assert [a, b][0] in [a, b] && [a, b][1] in [a, b];
    }
  }
}
