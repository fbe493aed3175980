/** The record store object: writers copy the maps and swap in the copies. */
module DockerRecords {
  import opened Names
  import opened RecordStore

  method Copy<V>(m: map<string, V>) returns (r: map<string, V>)
    ensures r == m
  {
    r := map[];
    var todo := m.Keys;
    while todo != {}
      invariant todo <= m.Keys
      invariant r == map k | k in m && k !in todo :: m[k]
      decreases |todo|
    {
      var k :| k in todo;
      r := r[k := m[k]];
      todo := todo - {k};
    }
  }

  method CopyWithout<V>(m: map<string, V>, drop: string) returns (r: map<string, V>)
    ensures r == m - {drop}
  {
    r := map[];
    var todo := m.Keys;
    while todo != {}
      invariant todo <= m.Keys
      invariant r == map k | k in m && k != drop && k !in todo :: m[k]
      decreases |todo|
    {
      var k :| k in todo;
      if k != drop {
        r := r[k := m[k]];
      }
      todo := todo - {k};
    }
  }

  class Records {
    var data: map<string, string>
    var meta: map<string, Stamp>

    function Value(): Store
      reads this
    {
      Store(data, meta)
    }

    constructor ()
      ensures Value() == EMPTY
    {
      data, meta := map[], map[];
    }

    method AddPlain(host: string, ip: string)
      modifies this
      ensures Value() == PlainAdd(old(Value()), host, ip)
    {
      var key := Lower(host);
      var newData := Copy(data);
      newData := newData[key := ip];
      data := newData;
    }

    method RemovePlain(host: string)
      modifies this
      ensures Value() == PlainRemove(old(Value()), host)
    {
      var key := Lower(host);
      if key !in data {
        assert data - {key} == data;
        return;
      }
      data := CopyWithout(data, key);
    }

    method LookupHost(host: string) returns (ip: string, found: bool)
      ensures found <==> Lookup(Value(), host).Some?
      ensures ip == if found then Lookup(Value(), host).value else ""
    {
      var key := Lower(host);
      found := key in data;
      ip := if found then data[key] else "";
    }

    method AddWithMeta(host: string, ip: string, stamp: Stamp) returns (ok: bool)
      modifies this
      ensures ok == Accepts(old(Value()), Message(host, ip, Add, stamp))
      ensures Value() == Apply(old(Value()), Message(host, ip, Add, stamp))
    {
      var key := Lower(host);
      if key in meta {
        var existing := meta[key];
        if existing.time > stamp.time {
          return false;
        }
        if existing.time == stamp.time && StringLe(stamp.node, existing.node) {
          return false;
        }
      }
      var newData := Copy(data);
      newData := newData[key := ip];
      var newMeta := Copy(meta);
      newMeta := newMeta[key := stamp];
      data, meta := newData, newMeta;
      return true;
    }

    method RemoveWithMeta(host: string, stamp: Stamp) returns (ok: bool)
      modifies this
      ensures ok == Accepts(old(Value()), Message(host, "", Remove, stamp))
      ensures Value() == Apply(old(Value()), Message(host, "", Remove, stamp))
    {
      var key := Lower(host);
      if key !in data {
        return false;
      }
      if key in meta {
        var existing := meta[key];
        if existing.time > stamp.time {
          return false;
        }
        if existing.time == stamp.time && StringLe(stamp.node, existing.node) {
          return false;
        }
      }
      var newData := CopyWithout(data, key);
      var newMeta := CopyWithout(meta, key);
      data, meta := newData, newMeta;
      return true;
    }

    method ApplyMessage(m: Message) returns (ok: bool)
      modifies this
      ensures ok == Accepts(old(Value()), m)
      ensures Value() == Apply(old(Value()), m)
    {
      match m.action
      case Add => ok := AddWithMeta(m.host, m.ip, m.stamp);
      case Remove => ok := RemoveWithMeta(m.host, m.stamp);
      case Other(_) => ok := false;
    }

    method GetAllWithMeta() returns (all: map<string, Entry>)
      ensures all == Export(Value())
    {
      all := map[];
      var todo := data.Keys;
      while todo != {}
        invariant todo <= data.Keys
        invariant all == map k | k in data && k !in todo :: Entry(data[k], StampOf(meta, k))
        decreases |todo|
      {
        var k :| k in todo;
        all := all[k := Entry(data[k], StampOf(meta, k))];
        todo := todo - {k};
      }
    }
  }
}
