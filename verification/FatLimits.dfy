/** Where the FAT code falls short, at concrete inputs. */
module FatLimits {
  import opened Bytes
  import opened FatTable
  import opened FatFiles
  import opened FatImages
  import opened FatLayout
  import Sal

  /** Two bytes written at the last byte of a 512-byte sector: the second one is lost. */
  lemma StraddleLoses()
    ensures Sal.Landed(AllOnes(1024), 512, 511, 511, [7, 7]) == [7, 255]
  {
  }

  /** Twenty bytes appended to a file of 500 bytes on clusters of two sectors run over a sector end. */
  lemma AppendLoses(v: Volume)
    requires v.sectorSize == 512 && v.bpc == 1024
    ensures HeadPart(v.bpc, 500, 20) == 20 && !HeadExact(v, 500, 20)
  {
  }

  /**
   * Formatting 25833 sectors as FAT16, one sector for each cluster and two copies: the computed tables
   * of 100 sectors end in front of the entries of the last two of 25600 clusters.
   */
  lemma ShortFat16Table()
    ensures
      var b := BootSector(512, 1, 1, 2, 512, 25833, 0, 0);
      && Tmp1(b) == 25800 && LeastCover(100, Tmp1(b), Tmp2(Fat16, b)) && ClustersLeft(b, 100) == 25600
      && EntryOff(Fat16, 25600 - 1) + 2 == 512 * 100
  {
    CeilIsLeastCover(25800, 258);
  }
}
