/**
 One page of the encrypted file, held decrypted in memory, and the file descriptor it is read from
 and written to. Mirrors aes_vfs/DiskPage.cc and aes_vfs/DiskPage.h.
 */
module DiskPages {
  import opened Sequences
  import opened Storage
  import opened CacheModel

  /** An open file: its bytes and the file position that lseek sets, and every write since it was opened. */
  class DiskFile {
    var data: seq<byte>
    var position: nat
    ghost var log: seq<Put>

    constructor (data: seq<byte>)
      ensures this.data == data && log == []
    {
      this.data := data;
      position := 0;
      log := [];
    }

    method Lseek(offset: nat)
      modifies this`position
      ensures position == offset
    {
      position := offset;
    }

    method Read(n: nat) returns (bytes: seq<byte>)
      modifies this`position
      ensures bytes == FileRead(data, old(position), n)
      ensures position == old(position) + |bytes|
    {
      bytes := FileRead(data, position, n);
      position := position + |bytes|;
    }

    method Write(bytes: seq<byte>)
      modifies this
      ensures data == FileWrite(old(data), old(position), bytes)
      ensures position == old(position) + |bytes|
      ensures log == old(log) + [Put(old(position), bytes)]
    {
      log := log + [Put(position, bytes)];
      data := FileWrite(data, position, bytes);
      position := position + |bytes|;
    }
  }

  class DiskPage {
    const cipher: Cipher
    const fd: DiskFile
    const pageNumber: nat
    var buffer: Page
    var dirty: bool

    /** A new page is loaded from its slot; past the end of the file it is zeros. */
    constructor (fd: DiskFile, pageNumber: nat, cipher: Cipher)
      requires pageNumber <= MAX_PAGE && Aligned(fd.data)
      modifies fd`position
      ensures this.fd == fd && this.pageNumber == pageNumber && this.cipher == cipher
      ensures buffer == SlotRead(cipher, SlotsOf(fd.data), pageNumber) && !dirty
    {
      this.cipher := cipher;
      this.fd := fd;
      this.pageNumber := pageNumber;
      this.buffer := ZERO_PAGE;
      this.dirty := false;
      new;
      Load();
    }

    method Seek()
      requires pageNumber <= MAX_PAGE
      modifies fd`position
      ensures fd.position == pageNumber * PAGE_SIZE_DISK
    {
      SeekOffsetExact(pageNumber);
      fd.Lseek(SeekOffset(pageNumber));
    }

    /** DiskPage::read: a short read gives a zero page, a full one is decrypted whatever its HMAC. */
    method Load()
      requires pageNumber <= MAX_PAGE && Aligned(fd.data)
      modifies this, fd`position
      ensures buffer == SlotRead(cipher, SlotsOf(fd.data), pageNumber) && !dirty
    {
      Seek();
      FileReadIsSlot(fd.data, pageNumber);
      var diskBuffer := fd.Read(PAGE_SIZE_DISK);
      if |diskBuffer| != PAGE_SIZE_DISK {
        buffer := Zeros(PAGE_SIZE);
      } else {
        buffer := cipher.dec(pageNumber, diskBuffer);
      }
      dirty := false;
    }

    /** DiskPage::write: encrypt the page into its slot. */
    method Store()
      requires pageNumber <= MAX_PAGE && Aligned(fd.data)
      modifies fd
      ensures Aligned(fd.data)
      ensures SlotsOf(fd.data) == SlotWrite(old(SlotsOf(fd.data)), pageNumber, cipher.enc(pageNumber, buffer))
      ensures fd.log == old(fd.log) + [PageWrite()] && fd.data == Replay(old(fd.data), [PageWrite()])
    {
      Seek();
      FileWriteIsSlotWrite(fd.data, pageNumber, cipher.enc(pageNumber, buffer));
      fd.Write(cipher.enc(pageNumber, buffer));
      assert [PageWrite()][1..] == [];
    }

    /** The write that stores the page. */
    ghost function PageWrite(): (w: Put)
      reads this
    {
      Put(pageNumber * PAGE_SIZE_DISK, cipher.enc(pageNumber, buffer))
    }

    /** Also the destructor: a dirty page is written back, a clean one costs no write. */
    method Flush()
      requires pageNumber <= MAX_PAGE && Aligned(fd.data)
      modifies this`dirty, fd
      ensures Aligned(fd.data) && !dirty
      ensures SlotsOf(fd.data) == if old(dirty)
        then SlotWrite(old(SlotsOf(fd.data)), pageNumber, cipher.enc(pageNumber, buffer))
        else old(SlotsOf(fd.data))
      ensures !old(dirty) ==> fd.data == old(fd.data)
      ensures fd.log == old(fd.log) + if old(dirty) then [PageWrite()] else []
      ensures fd.data == if old(dirty) then Replay(old(fd.data), [PageWrite()]) else old(fd.data)
    {
      if dirty {
        Store();
      }
      dirty := false;
    }
  }

  /** The page numbers of a list of pages. */
  ghost function Numbers(pages: seq<DiskPage>): (r: seq<nat>)
    ensures |r| == |pages|
    ensures forall i :: 0 <= i < |r| ==> r[i] == pages[i].pageNumber
  {
    seq(|pages|, i requires 0 <= i < |pages| => pages[i].pageNumber)
  }

  lemma {:induction false} NumbersRemove(pages: seq<DiskPage>, pg: DiskPage)
    requires forall x :: x in pages && x.pageNumber == pg.pageNumber ==> x == pg
    ensures Numbers(Remove(pages, pg)) == Remove(Numbers(pages), pg.pageNumber)
  {
    if pages != [] {
      assert pages[0] in pages;
      assert Numbers(pages)[1..] == Numbers(pages[1..]);
      if pages[0] != pg {
        NumbersRemove(pages[1..], pg);
        assert Numbers([pages[0]] + Remove(pages[1..], pg)) == [pages[0].pageNumber] + Numbers(Remove(pages[1..], pg));
      }
    }
  }
}
