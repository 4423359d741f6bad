/**
  The per-file record of the analysed repository: its path and size, its
  source text, and the coupling metrics the metrics calculator writes back.
  The peer sets are owned by the record and replaced wholesale by the
  setters.
*/
module Squares {
  import opened JavaText
  import opened SourceUtils

  class Square {
    var path: Option<string>
    var linesOfCode: int
    var source: string
    var instability: Option<real>
    var abstractness: Option<real>
    var efferentPeers: set<string>
    var afferentPeers: set<string>

    /** A new record has empty source, no metrics and no peers. */
    constructor (path: Option<string>, linesOfCode: int)
      ensures this.path == path && this.linesOfCode == linesOfCode
      ensures source == "" && instability == None && abstractness == None
      ensures efferentPeers == {} && afferentPeers == {}
    {
      this.path := path;
      this.linesOfCode := linesOfCode;
      source := "";
      instability := None;
      abstractness := None;
      efferentPeers := {};
      afferentPeers := {};
    }

    method SetPath(value: Option<string>)
      modifies this
      ensures path == value
      ensures linesOfCode == old(linesOfCode) && source == old(source)
      ensures instability == old(instability) && abstractness == old(abstractness)
      ensures efferentPeers == old(efferentPeers) && afferentPeers == old(afferentPeers)
    {
      path := value;
    }

    method SetLinesOfCode(value: int)
      modifies this
      ensures linesOfCode == value
      ensures path == old(path) && source == old(source)
      ensures instability == old(instability) && abstractness == old(abstractness)
      ensures efferentPeers == old(efferentPeers) && afferentPeers == old(afferentPeers)
    {
      linesOfCode := value;
    }

    /** `getName` and `getSimpleName`: the file's simple name. */
    function SimpleName(): (r: string)
      reads this
      ensures '/' !in r && '\\' !in r
      ensures path.None? ==> r == ""
    {
      SourceUtils.SimpleName(path)
    }

    /** `setSource`: a null source is stored as "". */
    method SetSource(src: Option<string>)
      modifies this
      ensures source == (if src.None? then "" else src.value)
      ensures path == old(path) && linesOfCode == old(linesOfCode)
      ensures instability == old(instability) && abstractness == old(abstractness)
      ensures efferentPeers == old(efferentPeers) && afferentPeers == old(afferentPeers)
    {
      source := if src.None? then "" else src.value;
    }

    method SetInstability(value: Option<real>)
      modifies this
      ensures instability == value
      ensures path == old(path) && linesOfCode == old(linesOfCode) && source == old(source)
      ensures abstractness == old(abstractness)
      ensures efferentPeers == old(efferentPeers) && afferentPeers == old(afferentPeers)
    {
      instability := value;
    }

    method SetAbstractness(value: Option<real>)
      modifies this
      ensures abstractness == value
      ensures path == old(path) && linesOfCode == old(linesOfCode) && source == old(source)
      ensures instability == old(instability)
      ensures efferentPeers == old(efferentPeers) && afferentPeers == old(afferentPeers)
    {
      abstractness := value;
    }

    /** `getCin`: the number of units that depend on this one. */
    function Cin(): (n: nat)
      reads this
      ensures n == |afferentPeers|
    {
      |afferentPeers|
    }

    /** `getCout`: the number of units this one depends on. */
    function Cout(): (n: nat)
      reads this
      ensures n == |efferentPeers|
    {
      |efferentPeers|
    }

    /** `setEfferentPeers`: clear, then copy the argument in; null leaves it empty. */
    method SetEfferentPeers(peers: Option<set<string>>)
      modifies this
      ensures efferentPeers == (if peers.None? then {} else peers.value)
      ensures path == old(path) && linesOfCode == old(linesOfCode) && source == old(source)
      ensures instability == old(instability) && abstractness == old(abstractness)
      ensures afferentPeers == old(afferentPeers)
    {
      efferentPeers := {};
      if peers.Some? {
        efferentPeers := efferentPeers + peers.value;
      }
    }

    /** `setAfferentPeers`: clear, then copy the argument in; null leaves it empty. */
    method SetAfferentPeers(peers: Option<set<string>>)
      modifies this
      ensures afferentPeers == (if peers.None? then {} else peers.value)
      ensures path == old(path) && linesOfCode == old(linesOfCode) && source == old(source)
      ensures instability == old(instability) && abstractness == old(abstractness)
      ensures efferentPeers == old(efferentPeers)
    {
      afferentPeers := {};
      if peers.Some? {
        afferentPeers := afferentPeers + peers.value;
      }
    }

    /** The state `resetMetrics` leaves: no metrics and no peers. */
    predicate IsReset()
      reads this
    {
      instability == None && abstractness == None && efferentPeers == {} && afferentPeers == {}
    }

    /** `resetMetrics`: clears the metrics and peers, keeps path, size and source. */
    method ResetMetrics()
      modifies this
      ensures IsReset()
      ensures path == old(path) && linesOfCode == old(linesOfCode) && source == old(source)
      ensures Cin() == 0 && Cout() == 0
    {
      instability := None;
      abstractness := None;
      efferentPeers := {};
      afferentPeers := {};
    }

    /** The identity `equals` and `hashCode` use: `String.valueOf(path)`. */
    function Key(): (k: string)
      reads this
      ensures path.Some? ==> k == path.value
    {
      ValueOf(path)
    }

    /** `equals`: same object, or the same printed path. */
    predicate Equals(that: Square?)
      reads this, that
    {
      that != null && (this == that || Key() == that.Key())
    }

    /** `hashCode`: the string hash of the printed path. */
    function HashCode(): (h: int)
      reads this
      ensures IsInt32(h)
    {
      StringHash(Key())
    }
  }

  /** `equals` is an equivalence on records, and equal records hash alike. */
  lemma EqualsIsEquivalence(a: Square, b: Square, c: Square)
    ensures a.Equals(a)
    ensures a.Equals(b) ==> b.Equals(a)
    ensures a.Equals(b) && b.Equals(c) ==> a.Equals(c)
    ensures a.Equals(b) ==> a.HashCode() == b.HashCode()
  {
  }

  /** Equality looks only at the printed path, which is the same for every
      record with that path, whatever its size, source or metrics. */
  lemma EqualsIgnoresEverythingButPath(a: Square, b: Square)
    requires a.path == b.path
    ensures a.Equals(b) && a.HashCode() == b.HashCode()
  {
  }

  /** A record without a path equals one whose path is the text "null". */
  lemma NullPathEqualsNullText(a: Square, b: Square)
    requires a.path == None && b.path == Some("null")
    ensures a.Equals(b)
  {
  }
}
